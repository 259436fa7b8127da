/** The two mention scanners, both over one table of terms.

    The backend takes the best match by length and kind, the frontend the first match in a list sorted by length. Both
    go on after the end of a match. */
module MentionScan {
  import opened Wrappers
  import opened Dedup

  datatype Target = Agent(id: int) | Node(id: int)

  datatype Candidate = Candidate(term: string, target: Target)

  datatype Side = Backend | Frontend

  datatype Match = Match(at: nat, candidate: Candidate)

  predicate IsAt(c: char) {
    c == '@' || c == '\U{FF20}'
  }

  predicate WordChar(c: char) {
    'a' <= c <= 'z' || 'A' <= c <= 'Z' || '0' <= c <= '9' || c == '_'
  }

  predicate AllNamed(table: seq<Candidate>) {
    forall i :: 0 <= i < |table| ==> table[i].term != ""
  }

  predicate AgentsFirst(table: seq<Candidate>) {
    forall i, j :: 0 <= i < j < |table| && table[i].target.Node? ==> table[j].target.Node?
  }

  ghost predicate KeepsLength(lower: string -> string) {
    forall s :: |lower(s)| == |s|
  }

  /** The length of a term as each scanner measures it: after or before lower-casing. */
  function Length(side: Side, c: Candidate, lower: string -> string): nat {
    if side == Backend then |lower(c.term)| else |c.term|
  }

  predicate Fits(side: Side, text: string, at: nat, c: Candidate, lower: string -> string)
    requires at < |text| && c.term != ""
  {
    var rest := text[at + 1..];
    var n := Length(side, c, lower);
    && lower(c.term) <= lower(rest)
    && !(WordChar(c.term[|c.term| - 1]) && n < |rest| && WordChar(rest[n]))
  }

  /** A mention may begin here: an at sign that does not follow an ASCII word character. */
  predicate Opens(text: string, at: nat) {
    at < |text| && IsAt(text[at]) && !(at > 0 && WordChar(text[at - 1]))
  }

  // ---- The backend: the best score, the earliest candidate among equals

  predicate Beats(c: Candidate, d: Candidate, lower: string -> string) {
    || |lower(c.term)| > |lower(d.term)|
    || (|lower(c.term)| == |lower(d.term)| && c.target.Agent? && d.target.Node?)
  }

  function BestIndex(text: string, at: nat, table: seq<Candidate>, lower: string -> string, n: nat): (r: Option<nat>)
    requires at < |text| && AllNamed(table) && n <= |table|
    ensures r.Some? ==> r.value < n && Fits(Backend, text, at, table[r.value], lower)
  {
    if n == 0 then None
    else
      var best := BestIndex(text, at, table, lower, n - 1);
      if Fits(Backend, text, at, table[n - 1], lower)
         && (best.None? || Beats(table[n - 1], table[best.value], lower))
      then Some(n - 1)
      else best
  }

  method BestMentionAt(text: string, at: nat, table: seq<Candidate>, lower: string -> string)
    returns (best: Option<nat>)
    requires at < |text| && AllNamed(table)
    ensures best == BestIndex(text, at, table, lower, |table|)
  {
    best := None;
    for i := 0 to |table|
      invariant best == BestIndex(text, at, table, lower, i)
    {
      if Fits(Backend, text, at, table[i], lower) {
        if best.None? || Beats(table[i], table[best.value], lower) {
          best := Some(i);
        }
      }
    }
  }

  /** No fitting candidate beats the chosen one, and it beats every fitting candidate before it. */
  ghost predicate IsBest(text: string, at: nat, table: seq<Candidate>, lower: string -> string, n: nat, k: nat)
    requires at < |text| && AllNamed(table) && n <= |table|
  {
    && k < n && Fits(Backend, text, at, table[k], lower)
    && forall j :: 0 <= j < n && Fits(Backend, text, at, table[j], lower) ==>
         !Beats(table[j], table[k], lower) && (j < k ==> Beats(table[k], table[j], lower))
  }

  lemma {:induction false} BestIsBest(text: string, at: nat, table: seq<Candidate>, lower: string -> string, n: nat)
    requires at < |text| && AllNamed(table) && n <= |table|
    ensures var r := BestIndex(text, at, table, lower, n);
            && (r.Some? ==> IsBest(text, at, table, lower, n, r.value))
            && (r.None? ==> forall j :: 0 <= j < n ==> !Fits(Backend, text, at, table[j], lower))
  {
    if n > 0 {
      BestIsBest(text, at, table, lower, n - 1);
    }
  }

  // ---- The frontend: a stable sort by length, longest first, then the first that fits

  function Insert(c: Candidate, sorted: seq<Candidate>): seq<Candidate> {
    if sorted == [] || |sorted[0].term| <= |c.term| then [c] + sorted
    else [sorted[0]] + Insert(c, sorted[1..])
  }

  function SortByLength(table: seq<Candidate>): (r: seq<Candidate>)
    requires AllNamed(table)
    ensures AllNamed(r)
  {
    if table == [] then []
    else
      InsertNames(table[0], SortByLength(table[1..]));
      Insert(table[0], SortByLength(table[1..]))
  }

  lemma InsertNames(c: Candidate, sorted: seq<Candidate>)
    requires c.term != "" && AllNamed(sorted)
    ensures AllNamed(Insert(c, sorted))
  {
  }

  function FirstFit(text: string, at: nat, sorted: seq<Candidate>, lower: string -> string): (r: Option<Candidate>)
    requires at < |text| && AllNamed(sorted)
    ensures r.Some? ==> r.value.term != ""
  {
    if sorted == [] then None
    else if Fits(Frontend, text, at, sorted[0], lower) then Some(sorted[0])
    else FirstFit(text, at, sorted[1..], lower)
  }

  method MatchMentionAt(text: string, at: nat, sorted: seq<Candidate>, lower: string -> string)
    returns (found: Option<Candidate>)
    requires at < |text| && AllNamed(sorted)
    ensures found == FirstFit(text, at, sorted, lower)
  {
    for i := 0 to |sorted|
      invariant FirstFit(text, at, sorted, lower) == FirstFit(text, at, sorted[i..], lower)
    {
      if Fits(Frontend, text, at, sorted[i], lower) {
        return Some(sorted[i]);
      }
      assert sorted[i..][1..] == sorted[i + 1..];
    }
    found := None;
  }

  // ---- The scan both sides run over their own pick

  function Pick(side: Side, text: string, at: nat, table: seq<Candidate>, lower: string -> string)
    : (r: Option<Candidate>)
    requires at < |text| && AllNamed(table)
    ensures r.Some? ==> r.value.term != ""
  {
    match side
    case Backend =>
      var best := BestIndex(text, at, table, lower, |table|);
      if best.Some? then Some(table[best.value]) else None
    case Frontend => FirstFit(text, at, SortByLength(table), lower)
  }

  function Scan(side: Side, text: string, table: seq<Candidate>, lower: string -> string, position: nat): seq<Match>
    requires AllNamed(table)
    decreases |text| - position
  {
    if position >= |text| then []
    else if !Opens(text, position) then Scan(side, text, table, lower, position + 1)
    else
      var picked := Pick(side, text, position, table, lower);
      if picked.None? then Scan(side, text, table, lower, position + 1)
      else
        [Match(position, picked.value)]
        + Scan(side, text, table, lower, position + 1 + Length(side, picked.value, lower))
  }

  function TargetsOf(matches: seq<Match>): seq<Target> {
    seq(|matches|, i requires 0 <= i < |matches| => matches[i].candidate.target)
  }

  function Mentioned(side: Side, text: string, table: seq<Candidate>, lower: string -> string): seq<Target>
    requires AllNamed(table)
  {
    FirstOccurrences(TargetsOf(Scan(side, text, table, lower, 0)))
  }

  /** The search for the next at sign does not skip a place where a mention may begin. */
  method NextAt(text: string, position: nat) returns (at: nat)
    requires position <= |text|
    ensures position <= at <= |text| && (at < |text| ==> IsAt(text[at]))
    ensures forall i :: position <= i < at ==> !IsAt(text[i])
  {
    at := position;
    while at < |text| && !IsAt(text[at])
      invariant position <= at <= |text| && forall i :: position <= i < at ==> !IsAt(text[i])
    {
      at := at + 1;
    }
  }

  lemma NoTableNoMatch(side: Side, text: string, lower: string -> string, position: nat)
    ensures Scan(side, text, [], lower, position) == []
    decreases |text| - position
  {
    if position < |text| {
      NoTableNoMatch(side, text, lower, position + 1);
    }
  }

  /** The matches found so far, followed by what the scan finds from `position` on, are the whole scan. */
  ghost predicate Halfway(side: Side, text: string, table: seq<Candidate>, lower: string -> string, position: nat,
                    done: seq<Match>)
    requires AllNamed(table)
  {
    done + Scan(side, text, table, lower, position) == Scan(side, text, table, lower, 0)
  }

  lemma {:induction false} SkipToAt(side: Side, text: string, table: seq<Candidate>, lower: string -> string,
                                    position: nat, at: nat, done: seq<Match>)
    requires AllNamed(table) && position <= at <= |text|
    requires forall i :: position <= i < at ==> !IsAt(text[i])
    requires Halfway(side, text, table, lower, position, done)
    ensures Halfway(side, text, table, lower, at, done)
    decreases at - position
  {
    if position < at {
      AfterAMiss(side, text, table, lower, position, done);
      SkipToAt(side, text, table, lower, position + 1, at, done);
    }
  }

  lemma AfterAMiss(side: Side, text: string, table: seq<Candidate>, lower: string -> string, at: nat,
                   done: seq<Match>)
    requires AllNamed(table) && at < |text| && Halfway(side, text, table, lower, at, done)
    requires Opens(text, at) ==> Pick(side, text, at, table, lower).None?
    ensures Halfway(side, text, table, lower, at + 1, done)
  {
  }

  lemma AfterAMatch(side: Side, text: string, table: seq<Candidate>, lower: string -> string, at: nat,
                    done: seq<Match>, c: Candidate)
    requires AllNamed(table) && Opens(text, at) && Halfway(side, text, table, lower, at, done)
    requires Pick(side, text, at, table, lower) == Some(c)
    ensures Halfway(side, text, table, lower, at + 1 + Length(side, c, lower), done + [Match(at, c)])
  {
    var rest := Scan(side, text, table, lower, at + 1 + Length(side, c, lower));
    assert done + [Match(at, c)] + rest == done + ([Match(at, c)] + rest);
  }

  lemma AtTheEnd(side: Side, text: string, table: seq<Candidate>, lower: string -> string, position: nat,
                 done: seq<Match>)
    requires AllNamed(table) && position >= |text| && Halfway(side, text, table, lower, position, done)
    ensures done == Scan(side, text, table, lower, 0)
  {
  }

  ghost predicate Collected(done: seq<Match>, targets: seq<Target>, seen: set<Target>) {
    targets == FirstOccurrences(TargetsOf(done)) && forall t :: t in seen <==> t in targets
  }

  /** Adding one match adds its target unless it was seen. */
  lemma OneMore(done: seq<Match>, m: Match, targets: seq<Target>, seen: set<Target>)
    requires Collected(done, targets, seen)
    ensures var t := m.candidate.target;
            if t in seen then Collected(done + [m], targets, seen)
            else Collected(done + [m], targets + [t], seen + {t})
  {
    var all := TargetsOf(done + [m]);
    assert all == TargetsOf(done) + [m.candidate.target];
    assert all[..|all| - 1] == TargetsOf(done);
  }

  /** Notes the target of one more match unless it was seen. */
  method NoteTarget(ghost done: seq<Match>, ghost m: Match, target: Target, targets0: seq<Target>, seen0: set<Target>)
    returns (targets: seq<Target>, seen: set<Target>)
    requires Collected(done, targets0, seen0) && target == m.candidate.target
    ensures Collected(done + [m], targets, seen)
  {
    OneMore(done, m, targets0, seen0);
    targets, seen := targets0, seen0;
    if target !in seen {
      seen := seen + {target};
      targets := targets + [target];
    }
  }

  /** What the backend does at one at sign. */
  method ResolveAt(content: string, at: nat, table: seq<Candidate>, lower: string -> string, ghost done0: seq<Match>,
                   targets0: seq<Target>, seen0: set<Target>)
    returns (position: nat, ghost done: seq<Match>, targets: seq<Target>, seen: set<Target>)
    requires AllNamed(table) && at < |content| && IsAt(content[at])
    requires Halfway(Backend, content, table, lower, at, done0) && Collected(done0, targets0, seen0)
    ensures at < position && Halfway(Backend, content, table, lower, position, done) && Collected(done, targets, seen)
  {
    position, done, targets, seen := at + 1, done0, targets0, seen0;
    if at > 0 && WordChar(content[at - 1]) {
      AfterAMiss(Backend, content, table, lower, at, done0);
      return;
    }
    var matched := BestMentionAt(content, at, table, lower);
    if matched.None? {
      AfterAMiss(Backend, content, table, lower, at, done0);
      return;
    }
    var best := table[matched.value];
    AfterAMatch(Backend, content, table, lower, at, done0, best);
    targets, seen := NoteTarget(done0, Match(at, best), best.target, targets0, seen0);
    done := done0 + [Match(at, best)];
    position := at + 1 + |lower(best.term)|;
  }

  method ResolveMentionTargets(content: string, table: seq<Candidate>, lower: string -> string)
    returns (targets: seq<Target>)
    requires AllNamed(table)
    ensures targets == Mentioned(Backend, content, table, lower)
  {
    targets := [];
    if table == [] {
      NoTableNoMatch(Backend, content, lower, 0);
      return;
    }
    var position := 0;
    var seen: set<Target> := {};
    ghost var done: seq<Match> := [];
    while position < |content|
      invariant Halfway(Backend, content, table, lower, position, done)
      invariant Collected(done, targets, seen)
      decreases |content| - position
    {
      var at := NextAt(content, position);
      SkipToAt(Backend, content, table, lower, position, at, done);
      position := at;
      if at == |content| {
        break;
      }
      position, done, targets, seen := ResolveAt(content, at, table, lower, done, targets, seen);
    }
    AtTheEnd(Backend, content, table, lower, position, done);
  }

  /** What the browser does at one at sign. */
  method ExtractAt(text: string, at: nat, table: seq<Candidate>, sorted: seq<Candidate>, lower: string -> string,
                   ghost done0: seq<Match>, targets0: seq<Target>, seen0: set<Target>)
    returns (position: nat, ghost done: seq<Match>, targets: seq<Target>, seen: set<Target>)
    requires AllNamed(table) && sorted == SortByLength(table) && at < |text| && IsAt(text[at])
    requires Halfway(Frontend, text, table, lower, at, done0) && Collected(done0, targets0, seen0)
    ensures at < position && Halfway(Frontend, text, table, lower, position, done) && Collected(done, targets, seen)
  {
    position, done, targets, seen := at + 1, done0, targets0, seen0;
    if at > 0 && WordChar(text[at - 1]) {
      AfterAMiss(Frontend, text, table, lower, at, done0);
      return;
    }
    var matched := MatchMentionAt(text, at, sorted, lower);
    if matched.None? {
      AfterAMiss(Frontend, text, table, lower, at, done0);
      return;
    }
    AfterAMatch(Frontend, text, table, lower, at, done0, matched.value);
    targets, seen := NoteTarget(done0, Match(at, matched.value), matched.value.target, targets0, seen0);
    done := done0 + [Match(at, matched.value)];
    position := at + 1 + |matched.value.term|;
  }

  method ExtractMentionEntries(text: string, table: seq<Candidate>, lower: string -> string)
    returns (targets: seq<Target>)
    requires AllNamed(table)
    ensures targets == Mentioned(Frontend, text, table, lower)
  {
    targets := [];
    var sorted := SortByLength(table);
    var position := 0;
    var seen: set<Target> := {};
    ghost var done: seq<Match> := [];
    while position < |text|
      invariant Halfway(Frontend, text, table, lower, position, done)
      invariant Collected(done, targets, seen)
      decreases |text| - position
    {
      var at := NextAt(text, position);
      SkipToAt(Frontend, text, table, lower, position, at, done);
      position := at;
      if at == |text| {
        break;
      }
      position, done, targets, seen := ExtractAt(text, at, table, sorted, lower, done, targets, seen);
    }
    AtTheEnd(Frontend, text, table, lower, position, done);
  }
}
