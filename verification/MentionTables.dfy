/** The table of mentionable terms, and how far its order matters. */
module MentionTables {
  import opened Wrappers
  import opened Dedup
  import opened MentionScan
  import opened MentionTheorems

  /** What can be mentioned under its terms, in the order in which the term set is walked. */
  datatype Entry = Entry(target: Target, terms: seq<string>)

  function TermsOf(e: Entry, trim: string -> string, n: nat): (r: seq<Candidate>)
    requires n <= |e.terms|
    ensures AllNamed(r) && forall i :: 0 <= i < |r| ==> r[i].target == e.target
  {
    if n == 0 then []
    else if trim(e.terms[n - 1]) == "" then TermsOf(e, trim, n - 1)
    else TermsOf(e, trim, n - 1) + [Candidate(trim(e.terms[n - 1]), e.target)]
  }

  function TableOf(entries: seq<Entry>, trim: string -> string, n: nat): (r: seq<Candidate>)
    requires n <= |entries|
    ensures AllNamed(r)
  {
    if n == 0 then []
    else TableOf(entries, trim, n - 1) + TermsOf(entries[n - 1], trim, |entries[n - 1].terms|)
  }

  predicate AgentEntriesFirst(entries: seq<Entry>) {
    forall i, j :: 0 <= i < j < |entries| && entries[i].target.Node? ==> entries[j].target.Node?
  }

  /** Both sides list agents before nodes, so their tables do. */
  lemma {:induction false} AgentEntriesGiveAgentsFirst(entries: seq<Entry>, trim: string -> string, n: nat)
    requires n <= |entries| && AgentEntriesFirst(entries)
    ensures AgentsFirst(TableOf(entries, trim, n))
    ensures forall i :: 0 <= i < |TableOf(entries, trim, n)| ==>
              exists j :: 0 <= j < n && entries[j].target == TableOf(entries, trim, n)[i].target
  {
    if n > 0 {
      AgentEntriesGiveAgentsFirst(entries, trim, n - 1);
      var front := TableOf(entries, trim, n - 1);
      var back := TermsOf(entries[n - 1], trim, |entries[n - 1].terms|);
      assert AgentsFirst(back);
      forall i, j | 0 <= i < |front| && 0 <= j < |back| && front[i].target.Node?
        ensures back[j].target.Node?
      {
      }
    }
  }

  method MentionCandidates(entries: seq<Entry>, trim: string -> string) returns (table: seq<Candidate>)
    requires AgentEntriesFirst(entries)
    ensures table == TableOf(entries, trim, |entries|) && AllNamed(table) && AgentsFirst(table)
  {
    table := [];
    for i := 0 to |entries|
      invariant table == TableOf(entries, trim, i)
    {
      var e := entries[i];
      ghost var before := table;
      for j := 0 to |e.terms|
        invariant table == before + TermsOf(e, trim, j)
      {
        if trim(e.terms[j]) != "" {
          table := table + [Candidate(trim(e.terms[j]), e.target)];
        }
      }
    }
    AgentEntriesGiveAgentsFirst(entries, trim, |entries|);
  }

  // ---- The table, without saying how it is collected

  /** Term `p.1` of entry `p.0`. */
  predicate IsTerm(entries: seq<Entry>, trim: string -> string, p: (nat, nat)) {
    p.0 < |entries| && p.1 < |entries[p.0].terms| && trim(entries[p.0].terms[p.1]) != ""
  }

  predicate Earlier(p: (nat, nat), q: (nat, nat)) {
    p.0 < q.0 || (p.0 == q.0 && p.1 < q.1)
  }

  /** Row `k` of the table is the term at `places[k]`, trimmed, for the target of its entry. */
  ghost predicate RowsAt(entries: seq<Entry>, trim: string -> string, table: seq<Candidate>, places: seq<(nat, nat)>) {
    && |places| == |table|
    && forall k :: 0 <= k < |places| ==>
         && IsTerm(entries, trim, places[k])
         && table[k] == Candidate(trim(entries[places[k].0].terms[places[k].1]), entries[places[k].0].target)
  }

  ghost predicate InTurn(places: seq<(nat, nat)>) {
    forall k, l :: 0 <= k < l < |places| ==> Earlier(places[k], places[l])
  }

  ghost predicate NoneLeftOut(entries: seq<Entry>, trim: string -> string, n: nat, m: nat, places: seq<(nat, nat)>) {
    forall p: (nat, nat) :: IsTerm(entries, trim, p) && (p.0 < n || (p.0 == n && p.1 < m)) ==> p in places
  }

  ghost predicate NoneBeyond(n: nat, m: nat, places: seq<(nat, nat)>) {
    forall k :: 0 <= k < |places| ==> Earlier(places[k], (n, m))
  }

  lemma {:induction false} TermPlaces(entries: seq<Entry>, trim: string -> string, i: nat, n: nat,
                                      table: seq<Candidate>, before: seq<(nat, nat)>)
    returns (places: seq<(nat, nat)>)
    requires i < |entries| && n <= |entries[i].terms| && RowsAt(entries, trim, table, before) && InTurn(before)
    requires NoneLeftOut(entries, trim, i, 0, before) && NoneBeyond(i, 0, before)
    ensures RowsAt(entries, trim, table + TermsOf(entries[i], trim, n), places) && InTurn(places)
    ensures NoneLeftOut(entries, trim, i, n, places) && NoneBeyond(i, n, places)
    decreases n
  {
    places := before;
    if n == 0 {
      assert table + [] == table;
    } else {
      var m := n - 1;
      var front := table + TermsOf(entries[i], trim, m);
      places := TermPlaces(entries, trim, i, m, table, before);
      if trim(entries[i].terms[m]) != "" {
        var row := Candidate(trim(entries[i].terms[m]), entries[i].target);
        assert table + (TermsOf(entries[i], trim, m) + [row]) == front + [row];
        places := OneRowMore(entries, trim, i, m, front, places);
      }
      OneTermMore(entries, trim, i, m, places);
    }
  }

  lemma OneRowMore(entries: seq<Entry>, trim: string -> string, i: nat, m: nat, front: seq<Candidate>,
                   before: seq<(nat, nat)>) returns (places: seq<(nat, nat)>)
    requires IsTerm(entries, trim, (i, m)) && RowsAt(entries, trim, front, before) && InTurn(before)
    requires NoneBeyond(i, m, before)
    ensures places == before + [(i, m)] && InTurn(places) && NoneBeyond(i, m + 1, places)
    ensures RowsAt(entries, trim, front + [Candidate(trim(entries[i].terms[m]), entries[i].target)], places)
  {
    places := before + [(i, m)];
  }

  lemma OneTermMore(entries: seq<Entry>, trim: string -> string, i: nat, m: nat, places: seq<(nat, nat)>)
    requires i < |entries| && m < |entries[i].terms|
    requires forall p: (nat, nat) ::
               IsTerm(entries, trim, p) && (p.0 < i || (p.0 == i && p.1 < m) || p == (i, m)) ==> p in places
    ensures NoneLeftOut(entries, trim, i, m + 1, places)
  {
    forall p: (nat, nat) | IsTerm(entries, trim, p) && (p.0 < i || (p.0 == i && p.1 < m + 1))
      ensures p in places
    {
      assert p.0 == i && p.1 == m ==> p == (i, m);
    }
  }

  lemma {:induction false} EntryPlaces(entries: seq<Entry>, trim: string -> string, n: nat)
    returns (places: seq<(nat, nat)>)
    requires n <= |entries|
    ensures RowsAt(entries, trim, TableOf(entries, trim, n), places) && InTurn(places)
    ensures NoneLeftOut(entries, trim, n, 0, places) && NoneBeyond(n, 0, places)
  {
    if n == 0 {
      places := [];
    } else {
      var before := EntryPlaces(entries, trim, n - 1);
      places := TermPlaces(entries, trim, n - 1, |entries[n - 1].terms|, TableOf(entries, trim, n - 1), before);
    }
  }

  /** The table has one row for every term that is not blank, in the order of the entries and of their terms, with the
      term trimmed and the target of its entry. */
  lemma TableExactly(entries: seq<Entry>, trim: string -> string) returns (places: seq<(nat, nat)>)
    ensures RowsAt(entries, trim, TableOf(entries, trim, |entries|), places) && InTurn(places)
    ensures forall p: (nat, nat) :: IsTerm(entries, trim, p) ==> p in places
  {
    places := EntryPlaces(entries, trim, |entries|);
  }

  predicate SameName(c: Candidate, d: Candidate, lower: string -> string) {
    lower(c.term) == lower(d.term) && c.target.Agent? == d.target.Agent?
  }

  /** No two agents, and no two nodes, share a term. */
  predicate Unambiguous(table: seq<Candidate>, lower: string -> string) {
    forall i, j ::
      0 <= i < |table| && 0 <= j < |table| && SameName(table[i], table[j], lower) ==> table[i].target == table[j].target
  }

  predicate SameCandidates(a: seq<Candidate>, b: seq<Candidate>) {
    (forall c :: c in a ==> c in b) && (forall c :: c in b ==> c in a)
  }

  /** What a pick promises that does not depend on the order of the table. */
  ghost predicate IsTop(text: string, at: nat, table: seq<Candidate>, lower: string -> string, c: Candidate)
    requires at < |text| && AllNamed(table)
  {
    && c in table && Fits(Backend, text, at, c, lower)
    && forall j :: 0 <= j < |table| && Fits(Backend, text, at, table[j], lower) ==> !Beats(table[j], c, lower)
  }

  lemma PickIsTop(text: string, at: nat, table: seq<Candidate>, lower: string -> string)
    requires at < |text| && AllNamed(table)
    ensures var p := Pick(Backend, text, at, table, lower);
            if p.Some? then IsTop(text, at, table, lower, p.value)
            else forall j :: 0 <= j < |table| ==> !Fits(Backend, text, at, table[j], lower)
  {
    BestIsBest(text, at, table, lower, |table|);
  }

  lemma TopsAgree(text: string, at: nat, a: seq<Candidate>, b: seq<Candidate>, lower: string -> string, c: Candidate,
                  d: Candidate)
    requires at < |text| && AllNamed(a) && AllNamed(b) && SameCandidates(a, b) && Unambiguous(a, lower)
    requires IsTop(text, at, a, lower, c) && IsTop(text, at, b, lower, d)
    ensures c.target == d.target && |lower(c.term)| == |lower(d.term)|
  {
    assert !Beats(c, d, lower) && !Beats(d, c, lower);
    var rest := lower(text[at + 1..]);
    assert lower(c.term) == rest[..|lower(c.term)|] && lower(d.term) == rest[..|lower(d.term)|];
    assert d in a;
  }

  /** With unambiguous terms the order of the table does not matter at one place... */
  lemma PicksAgree(text: string, at: nat, a: seq<Candidate>, b: seq<Candidate>, lower: string -> string)
    requires at < |text| && AllNamed(a) && AllNamed(b) && SameCandidates(a, b) && Unambiguous(a, lower)
    ensures var p, q := Pick(Backend, text, at, a, lower), Pick(Backend, text, at, b, lower);
            && p.Some? == q.Some?
            && (p.Some? ==> p.value.target == q.value.target && |lower(p.value.term)| == |lower(q.value.term)|)
  {
    PickIsTop(text, at, a, lower);
    PickIsTop(text, at, b, lower);
    var p, q := Pick(Backend, text, at, a, lower), Pick(Backend, text, at, b, lower);
    if p.Some? && q.Some? {
      TopsAgree(text, at, a, b, lower, p.value, q.value);
    }
    assert p.Some? ==> p.value in b;
    assert q.Some? ==> q.value in a;
  }

  lemma TargetsOfPrepend(m: Match, rest: seq<Match>)
    ensures TargetsOf([m] + rest) == [m.candidate.target] + TargetsOf(rest)
  {
  }

  lemma {:induction false} TargetsAgree(text: string, a: seq<Candidate>, b: seq<Candidate>, lower: string -> string,
                                        position: nat)
    requires AllNamed(a) && AllNamed(b) && SameCandidates(a, b) && Unambiguous(a, lower)
    ensures TargetsOf(Scan(Backend, text, a, lower, position)) == TargetsOf(Scan(Backend, text, b, lower, position))
    decreases |text| - position
  {
    if position < |text| {
      PicksAgree(text, position, a, b, lower);
      var p := Pick(Backend, text, position, a, lower);
      if Opens(text, position) && p.Some? {
        var q := Pick(Backend, text, position, b, lower);
        var next := position + 1 + |lower(p.value.term)|;
        TargetsAgree(text, a, b, lower, next);
        TargetsOfPrepend(Match(position, p.value), Scan(Backend, text, a, lower, next));
        TargetsOfPrepend(Match(position, q.value), Scan(Backend, text, b, lower, next));
      } else {
        TargetsAgree(text, a, b, lower, position + 1);
      }
    }
  }

  /** The two sides need not list the entries in the same order: if no two agents and no two nodes share a term, the
      scanners agree on tables that merely hold the same candidates. */
  lemma TableOrderIsIrrelevant(text: string, a: seq<Candidate>, b: seq<Candidate>, lower: string -> string)
    requires AllNamed(a) && AllNamed(b) && SameCandidates(a, b) && Unambiguous(a, lower)
    requires AgentsFirst(b) && KeepsLength(lower)
    ensures Mentioned(Backend, text, a, lower) == Mentioned(Frontend, text, b, lower)
  {
    TargetsAgree(text, a, b, lower, 0);
    ScannersAgree(text, b, lower);
  }

  // ---- Two tables, of which one lists less

  /** The candidate fits here under the name of `c`, for the same kind of target. */
  predicate Suits(text: string, at: nat, c: Candidate, d: Candidate, lower: string -> string)
    requires at < |text| && d.term != ""
  {
    SameName(c, d, lower) && Fits(Backend, text, at, d, lower)
  }

  predicate IsFirstToSuit(text: string, at: nat, c: Candidate, table: seq<Candidate>, lower: string -> string, i: nat)
    requires at < |text| && AllNamed(table) && i < |table|
  {
    Suits(text, at, c, table[i], lower) && forall j :: 0 <= j < i ==> !Suits(text, at, c, table[j], lower)
  }

  /** The table lists the name that fits here, and the first to bear it there is the same target. */
  predicate Listed(text: string, at: nat, c: Candidate, table: seq<Candidate>, lower: string -> string)
    requires at < |text| && AllNamed(table)
  {
    exists i :: 0 <= i < |table| && IsFirstToSuit(text, at, c, table, lower, i) && table[i].target == c.target
  }

  predicate AllListed(text: string, ms: seq<Match>, table: seq<Candidate>, lower: string -> string)
    requires AllNamed(table)
  {
    forall i :: 0 <= i < |ms| ==> ms[i].at < |text| && Listed(text, ms[i].at, ms[i].candidate, table, lower)
  }

  /** How a scan reads the text: at which places, under which names, as what. */
  datatype Reading = Reading(at: nat, name: string, target: Target)

  function ReadingOf(m: Match, lower: string -> string): Reading {
    Reading(m.at, lower(m.candidate.term), m.candidate.target)
  }

  function ReadingsOf(ms: seq<Match>, lower: string -> string): seq<Reading> {
    seq(|ms|, i requires 0 <= i < |ms| => ReadingOf(ms[i], lower))
  }

  predicate ListsNoMore(few: seq<Candidate>, all: seq<Candidate>) {
    forall i :: 0 <= i < |few| ==> few[i] in all
  }

  lemma ReadingsPrepend(m: Match, rest: seq<Match>, lower: string -> string)
    ensures ReadingsOf([m] + rest, lower) == [ReadingOf(m, lower)] + ReadingsOf(rest, lower)
  {
  }

  lemma ListedPrepend(text: string, m: Match, rest: seq<Match>, table: seq<Candidate>, lower: string -> string)
    requires AllNamed(table) && m.at < |text|
    ensures AllListed(text, [m] + rest, table, lower)
            <==> Listed(text, m.at, m.candidate, table, lower) && AllListed(text, rest, table, lower)
  {
    var all := [m] + rest;
    assert all[0] == m && forall i :: 0 <= i < |rest| ==> all[i + 1] == rest[i];
    assert forall i :: 1 <= i < |all| ==> all[i] == rest[i - 1];
  }

  /** Where the larger table picks a name that the smaller one has, the smaller one picks the first to bear it. */
  lemma SuitedPick(text: string, at: nat, all: seq<Candidate>, few: seq<Candidate>, lower: string -> string,
                   c: Candidate, i: nat)
    requires at < |text| && AllNamed(all) && AllNamed(few) && ListsNoMore(few, all)
    requires Pick(Backend, text, at, all, lower) == Some(c)
    requires i < |few| && IsFirstToSuit(text, at, c, few, lower, i)
    ensures Pick(Backend, text, at, few, lower) == Some(few[i])
  {
    PickIsTop(text, at, all, lower);
    BestIsBest(text, at, few, lower, |few|);
    var k := BestIndex(text, at, few, lower, |few|).value;
    var e := few[k];
    assert e in all;
    assert !Beats(e, c, lower) && !Beats(few[i], e, lower);
    SameStretch(text, at, c, e, lower);
    assert Suits(text, at, c, e, lower);
    assert i < k ==> Beats(e, few[i], lower);
  }

  /** Two that fit at one place with names of one length have one name. */
  lemma SameStretch(text: string, at: nat, c: Candidate, e: Candidate, lower: string -> string)
    requires at < |text| && c.term != "" && e.term != "" && |lower(c.term)| == |lower(e.term)|
    requires Fits(Backend, text, at, c, lower) && Fits(Backend, text, at, e, lower)
    ensures lower(c.term) == lower(e.term)
  {
    var rest := lower(text[at + 1..]);
    assert lower(c.term) == rest[..|lower(c.term)|] && lower(e.term) == rest[..|lower(e.term)|];
  }

  lemma ListedPick(text: string, at: nat, all: seq<Candidate>, few: seq<Candidate>, lower: string -> string,
                   c: Candidate)
    requires at < |text| && AllNamed(all) && AllNamed(few) && ListsNoMore(few, all)
    requires Pick(Backend, text, at, all, lower) == Some(c) && Listed(text, at, c, few, lower)
    ensures var q := Pick(Backend, text, at, few, lower);
            q.Some? && lower(q.value.term) == lower(c.term) && q.value.target == c.target
  {
    var i :| 0 <= i < |few| && IsFirstToSuit(text, at, c, few, lower, i) && few[i].target == c.target;
    SuitedPick(text, at, all, few, lower, c, i);
  }

  lemma PickIsListed(text: string, at: nat, few: seq<Candidate>, lower: string -> string, c: Candidate)
    requires at < |text| && AllNamed(few)
    requires var q := Pick(Backend, text, at, few, lower);
             q.Some? && lower(q.value.term) == lower(c.term) && q.value.target == c.target
    ensures Listed(text, at, c, few, lower)
  {
    BestIsBest(text, at, few, lower, |few|);
    var k := BestIndex(text, at, few, lower, |few|).value;
    forall j | 0 <= j < k
      ensures !Suits(text, at, c, few[j], lower)
    {
      assert Fits(Backend, text, at, few[j], lower) ==> Beats(few[k], few[j], lower);
    }
    assert IsFirstToSuit(text, at, c, few, lower, k);
  }

  lemma NoPickNoPick(text: string, at: nat, all: seq<Candidate>, few: seq<Candidate>, lower: string -> string)
    requires at < |text| && AllNamed(all) && AllNamed(few) && ListsNoMore(few, all)
    requires Pick(Backend, text, at, all, lower).None?
    ensures Pick(Backend, text, at, few, lower).None?
  {
    PickIsTop(text, at, all, lower);
    PickIsTop(text, at, few, lower);
  }

  lemma FirstAt(text: string, table: seq<Candidate>, lower: string -> string, position: nat)
    requires AllNamed(table) && KeepsLength(lower)
    ensures var ms := Scan(Backend, text, table, lower, position); ms != [] ==> position <= ms[0].at
  {
    ScanFromIsMaximalMunch(text, table, lower, position, Scan(Backend, text, table, lower, position));
  }

  lemma ReadingsAtPick(text: string, table: seq<Candidate>, lower: string -> string, at: nat, e: Candidate)
    requires AllNamed(table) && KeepsLength(lower)
    requires Opens(text, at) && Pick(Backend, text, at, table, lower) == Some(e)
    ensures ReadingsOf(Scan(Backend, text, table, lower, at), lower)
            == [ReadingOf(Match(at, e), lower)]
               + ReadingsOf(Scan(Backend, text, table, lower, at + 1 + |e.term|), lower)
  {
    var m, rest := Match(at, e), Scan(Backend, text, table, lower, at + 1 + |e.term|);
    ScanUnfolds(text, table, lower, at);
    assert Scan(Backend, text, table, lower, at) == [m] + rest;
    ReadingsPrepend(m, rest, lower);
  }

  lemma SameReading(at: nat, c: Candidate, e: Candidate, lower: string -> string)
    requires KeepsLength(lower) && lower(e.term) == lower(c.term) && e.target == c.target
    ensures ReadingOf(Match(at, e), lower) == ReadingOf(Match(at, c), lower) && |e.term| == |c.term|
  {
    assert |lower(e.term)| == |e.term| && |lower(c.term)| == |c.term|;
  }

  /** The first step of two scans whose readings are compared. */
  lemma HitAgrees(text: string, all: seq<Candidate>, few: seq<Candidate>, lower: string -> string, at: nat,
                  c: Candidate)
    requires AllNamed(all) && AllNamed(few) && ListsNoMore(few, all) && KeepsLength(lower)
    requires Opens(text, at) && Pick(Backend, text, at, all, lower) == Some(c)
    requires Listed(text, at, c, few, lower)
    ensures ReadingsOf(Scan(Backend, text, few, lower, at), lower)
            == [ReadingOf(Match(at, c), lower)]
               + ReadingsOf(Scan(Backend, text, few, lower, at + 1 + |c.term|), lower)
  {
    ListedPick(text, at, all, few, lower, c);
    var e := Pick(Backend, text, at, few, lower).value;
    SameReading(at, c, e, lower);
    ReadingsAtPick(text, few, lower, at, e);
  }

  lemma MissDisagrees(text: string, few: seq<Candidate>, lower: string -> string, at: nat, c: Candidate)
    requires AllNamed(few) && KeepsLength(lower) && Opens(text, at) && !Listed(text, at, c, few, lower)
    ensures var readings := ReadingsOf(Scan(Backend, text, few, lower, at), lower);
            readings != [] ==> readings[0] != ReadingOf(Match(at, c), lower)
  {
    var q := Pick(Backend, text, at, few, lower);
    ScanUnfolds(text, few, lower, at);
    if q.None? {
      FirstAt(text, few, lower, at + 1);
    } else if lower(q.value.term) == lower(c.term) && q.value.target == c.target {
      PickIsListed(text, at, few, lower, c);
    }
  }

  /** For a table and one that lists no more: both read the text in the same way if and only if, for every name that the
      larger one picks, the first to bear it in the smaller one where it fits is the target picked. */
  lemma {:induction false} ReadingsAgreeIff(text: string, all: seq<Candidate>, few: seq<Candidate>,
                                            lower: string -> string, position: nat)
    requires AllNamed(all) && AllNamed(few) && ListsNoMore(few, all) && KeepsLength(lower)
    ensures ReadingsOf(Scan(Backend, text, all, lower, position), lower)
            == ReadingsOf(Scan(Backend, text, few, lower, position), lower)
            <==> AllListed(text, Scan(Backend, text, all, lower, position), few, lower)
    decreases |text| - position, 1
  {
    if position < |text| {
      ScanUnfolds(text, all, lower, position);
      ScanUnfolds(text, few, lower, position);
      var p := if Opens(text, position) then Pick(Backend, text, position, all, lower) else None;
      if p.None? {
        if Opens(text, position) {
          NoPickNoPick(text, position, all, few, lower);
        }
        ReadingsAgreeIff(text, all, few, lower, position + 1);
      } else {
        ReadingsAgreeAtHit(text, all, few, lower, position, p.value);
      }
    }
  }

  lemma {:induction false} ReadingsAgreeAtHit(text: string, all: seq<Candidate>, few: seq<Candidate>,
                                              lower: string -> string, at: nat, c: Candidate)
    requires AllNamed(all) && AllNamed(few) && ListsNoMore(few, all) && KeepsLength(lower)
    requires Opens(text, at) && Pick(Backend, text, at, all, lower) == Some(c)
    ensures ReadingsOf(Scan(Backend, text, all, lower, at), lower)
            == ReadingsOf(Scan(Backend, text, few, lower, at), lower)
            <==> AllListed(text, Scan(Backend, text, all, lower, at), few, lower)
    decreases |text| - at, 0
  {
    var m, next := Match(at, c), at + 1 + |c.term|;
    var rest := Scan(Backend, text, all, lower, next);
    ScanUnfolds(text, all, lower, at);
    assert Scan(Backend, text, all, lower, at) == [m] + rest;
    ReadingsPrepend(m, rest, lower);
    ListedPrepend(text, m, rest, few, lower);
    if Listed(text, at, c, few, lower) {
      HitAgrees(text, all, few, lower, at, c);
      ReadingsAgreeIff(text, all, few, lower, next);
      SameHead(ReadingOf(m, lower), ReadingsOf(rest, lower), ReadingsOf(Scan(Backend, text, few, lower, next), lower));
    } else {
      MissDisagrees(text, few, lower, at, c);
    }
  }

  lemma SameHead(r: Reading, a: seq<Reading>, b: seq<Reading>)
    ensures [r] + a == [r] + b <==> a == b
  {
    assert ([r] + a)[1..] == a && ([r] + b)[1..] == b;
  }

  lemma ReadingsGiveTargets(a: seq<Match>, b: seq<Match>, lower: string -> string)
    requires ReadingsOf(a, lower) == ReadingsOf(b, lower)
    ensures TargetsOf(a) == TargetsOf(b)
  {
    assert |a| == |ReadingsOf(a, lower)| == |b|;
    forall i | 0 <= i < |a|
      ensures a[i].candidate.target == b[i].candidate.target
    {
      assert ReadingsOf(a, lower)[i] == ReadingsOf(b, lower)[i];
    }
  }

  /** Then the browser, with its smaller table, finds what the backend finds with its larger one. */
  lemma ListedNamesMeanTheSame(text: string, all: seq<Candidate>, few: seq<Candidate>, lower: string -> string)
    requires AllNamed(all) && AllNamed(few) && ListsNoMore(few, all) && KeepsLength(lower)
    requires AgentsFirst(few) && AllListed(text, Scan(Backend, text, all, lower, 0), few, lower)
    ensures Mentioned(Backend, text, all, lower) == Mentioned(Frontend, text, few, lower)
  {
    ReadingsAgreeIff(text, all, few, lower, 0);
    ReadingsGiveTargets(Scan(Backend, text, all, lower, 0), Scan(Backend, text, few, lower, 0), lower);
    ScannersAgree(text, few, lower);
  }

  /** The sort is stable. */
  lemma EqualTermsStay(a: Candidate, b: Candidate)
    requires a.term == b.term != ""
    ensures SortByLength([a, b]) == [a, b]
  {
    assert [a, b][1..] == [b] && [b][1..] == [];
    assert SortByLength([b]) == [b];
  }

  /** With a node listed before an agent of the same name, the backend takes the agent and the frontend the node. */
  lemma NodeFirstDisagrees()
    ensures var table := [Candidate("a", Node(1)), Candidate("a", Agent(1))];
            && AllNamed(table)
            && Mentioned(Backend, "@a", table, s => s) == [Agent(1)]
            && Mentioned(Frontend, "@a", table, s => s) == [Node(1)]
  {
    var node, agent := Candidate("a", Node(1)), Candidate("a", Agent(1));
    var table, lower: string -> string := [node, agent], s => s;
    assert Opens("@a", 0) && "@a"[1..] == "a" && "a"[..1] == "a";
    assert Fits(Backend, "@a", 0, node, lower) && Fits(Backend, "@a", 0, agent, lower);
    assert Fits(Frontend, "@a", 0, node, lower);
    assert BestIndex("@a", 0, table, lower, 1) == Some(0) && BestIndex("@a", 0, table, lower, 2) == Some(1);
    EqualTermsStay(node, agent);
    assert Scan(Backend, "@a", table, lower, 0) == [Match(0, agent)] + Scan(Backend, "@a", table, lower, 2);
    assert Scan(Frontend, "@a", table, lower, 0) == [Match(0, node)] + Scan(Frontend, "@a", table, lower, 2);
    assert TargetsOf([Match(0, agent)]) == [Agent(1)] && TargetsOf([Match(0, node)]) == [Node(1)];
  }
}
