/** The two scanners return the same targets, and what they return is fixed by a description that mentions neither. */
module MentionTheorems {
  import opened Wrappers
  import opened MentionScan

  lemma FitsAgree(text: string, at: nat, c: Candidate, lower: string -> string)
    requires at < |text| && c.term != "" && KeepsLength(lower)
    ensures Fits(Backend, text, at, c, lower) <==> Fits(Frontend, text, at, c, lower)
  {
    assert |lower(c.term)| == |c.term|;
  }

  // ---- What the frontend's sorted search finds

  predicate LongestFirst(sorted: seq<Candidate>) {
    forall i, j :: 0 <= i < j < |sorted| ==> |sorted[i].term| >= |sorted[j].term|
  }

  lemma {:induction false} InsertSorts(c: Candidate, sorted: seq<Candidate>)
    requires LongestFirst(sorted)
    ensures LongestFirst(Insert(c, sorted))
    ensures forall d :: d in Insert(c, sorted) ==> d == c || d in sorted
  {
    if sorted != [] && |sorted[0].term| > |c.term| {
      InsertSorts(c, sorted[1..]);
      var rest := Insert(c, sorted[1..]);
      forall j | 0 <= j < |rest|
        ensures |rest[j].term| <= |sorted[0].term|
      {
        assert rest[j] in rest;
        assert rest[j] == c || rest[j] in sorted[1..];
      }
      assert forall i, j :: 0 <= i < j < |rest| ==> |rest[i].term| >= |rest[j].term|;
    }
  }

  lemma {:induction false} SortSorts(table: seq<Candidate>)
    requires AllNamed(table)
    ensures LongestFirst(SortByLength(table))
  {
    if table != [] {
      SortSorts(table[1..]);
      InsertSorts(table[0], SortByLength(table[1..]));
    }
  }

  /** The longest fitting candidate, the earliest among equals. */
  function Longest(text: string, at: nat, table: seq<Candidate>, lower: string -> string): Option<Candidate>
    requires at < |text| && AllNamed(table)
  {
    if table == [] then None
    else OrLonger(text, at, table[0], Longest(text, at, table[1..], lower), lower)
  }

  function OrLonger(text: string, at: nat, c: Candidate, rest: Option<Candidate>, lower: string -> string)
    : Option<Candidate>
    requires at < |text| && c.term != ""
  {
    if Fits(Frontend, text, at, c, lower) && (rest.None? || |rest.value.term| <= |c.term|) then Some(c) else rest
  }

  lemma {:induction false} FirstFitIsIn(text: string, at: nat, sorted: seq<Candidate>, lower: string -> string)
    requires at < |text| && AllNamed(sorted)
    ensures var r := FirstFit(text, at, sorted, lower); r.Some? ==> r.value in sorted
  {
    if sorted != [] {
      FirstFitIsIn(text, at, sorted[1..], lower);
    }
  }

  lemma {:induction false} FirstFitAfterInsert(text: string, at: nat, c: Candidate, sorted: seq<Candidate>,
                                               lower: string -> string)
    requires at < |text| && c.term != "" && AllNamed(sorted) && LongestFirst(sorted)
    ensures AllNamed(Insert(c, sorted))
    ensures FirstFit(text, at, Insert(c, sorted), lower)
            == OrLonger(text, at, c, FirstFit(text, at, sorted, lower), lower)
  {
    InsertNames(c, sorted);
    if sorted == [] || |sorted[0].term| <= |c.term| {
      assert ([c] + sorted)[1..] == sorted;
      FirstFitIsIn(text, at, sorted, lower);
    } else {
      FirstFitAfterInsert(text, at, c, sorted[1..], lower);
      assert Insert(c, sorted)[1..] == Insert(c, sorted[1..]);
    }
  }

  lemma {:induction false} SortedSearchFindsLongest(text: string, at: nat, table: seq<Candidate>,
                                                    lower: string -> string)
    requires at < |text| && AllNamed(table)
    ensures FirstFit(text, at, SortByLength(table), lower) == Longest(text, at, table, lower)
  {
    if table != [] {
      SortedSearchFindsLongest(text, at, table[1..], lower);
      SortSorts(table[1..]);
      FirstFitAfterInsert(text, at, table[0], SortByLength(table[1..]), lower);
    }
  }

  ghost predicate IsLongest(text: string, at: nat, table: seq<Candidate>, lower: string -> string, k: nat)
    requires at < |text| && AllNamed(table)
  {
    && k < |table| && Fits(Frontend, text, at, table[k], lower)
    && forall j :: 0 <= j < |table| && Fits(Frontend, text, at, table[j], lower) ==>
         |table[j].term| <= |table[k].term| && (j < k ==> |table[j].term| < |table[k].term|)
  }

  lemma {:induction false} LongestIsLongest(text: string, at: nat, table: seq<Candidate>, lower: string -> string)
    returns (k: nat)
    requires at < |text| && AllNamed(table)
    ensures var r := Longest(text, at, table, lower);
            && (r.Some? ==> IsLongest(text, at, table, lower, k) && table[k] == r.value)
            && (r.None? ==> forall j :: 0 <= j < |table| ==> !Fits(Frontend, text, at, table[j], lower))
  {
    k := 0;
    if table != [] {
      var rest := table[1..];
      var k' := LongestIsLongest(text, at, rest, lower);
      assert forall j :: 1 <= j < |table| ==> table[j] == rest[j - 1];
      if Longest(text, at, table, lower) == Longest(text, at, rest, lower) && Longest(text, at, rest, lower).Some? {
        var inner := Longest(text, at, rest, lower);
        if !(Fits(Frontend, text, at, table[0], lower) && |inner.value.term| <= |table[0].term|) {
          k := k' + 1;
        }
      }
    }
  }

  // ---- Both sides pick the same candidate

  lemma BestIsLongest(text: string, at: nat, table: seq<Candidate>, lower: string -> string, best: nat, longest: nat)
    requires at < |text| && AllNamed(table) && AgentsFirst(table) && KeepsLength(lower)
    requires IsBest(text, at, table, lower, |table|, best) && IsLongest(text, at, table, lower, longest)
    ensures best == longest
  {
    FitsAgree(text, at, table[best], lower);
    FitsAgree(text, at, table[longest], lower);
    assert |lower(table[best].term)| == |table[best].term| && |lower(table[longest].term)| == |table[longest].term|;
  }

  lemma SidesPickTheSame(text: string, at: nat, table: seq<Candidate>, lower: string -> string)
    requires at < |text| && AllNamed(table) && AgentsFirst(table) && KeepsLength(lower)
    ensures Pick(Backend, text, at, table, lower) == Pick(Frontend, text, at, table, lower)
  {
    var best := BestIndex(text, at, table, lower, |table|);
    BestIsBest(text, at, table, lower, |table|);
    SortedSearchFindsLongest(text, at, table, lower);
    var longest := LongestIsLongest(text, at, table, lower);
    forall j | 0 <= j < |table|
      ensures Fits(Backend, text, at, table[j], lower) <==> Fits(Frontend, text, at, table[j], lower)
    {
      FitsAgree(text, at, table[j], lower);
    }
    if best.Some? && Longest(text, at, table, lower).Some? {
      BestIsLongest(text, at, table, lower, best.value, longest);
    }
  }

  lemma {:induction false} ScansAgree(text: string, table: seq<Candidate>, lower: string -> string, position: nat)
    requires AllNamed(table) && AgentsFirst(table) && KeepsLength(lower)
    ensures Scan(Backend, text, table, lower, position) == Scan(Frontend, text, table, lower, position)
    decreases |text| - position
  {
    if position < |text| {
      SidesPickTheSame(text, position, table, lower);
      var picked := Pick(Backend, text, position, table, lower);
      if Opens(text, position) && picked.Some? {
        assert |lower(picked.value.term)| == |picked.value.term|;
        ScansAgree(text, table, lower, position + 1 + |picked.value.term|);
      } else {
        ScansAgree(text, table, lower, position + 1);
      }
    }
  }

  /** Given one table with agents before nodes and lower-casing that keeps lengths, both scanners return the same
      targets for every text. */
  lemma ScannersAgree(text: string, table: seq<Candidate>, lower: string -> string)
    requires AllNamed(table) && AgentsFirst(table) && KeepsLength(lower)
    ensures Mentioned(Backend, text, table, lower) == Mentioned(Frontend, text, table, lower)
  {
    ScansAgree(text, table, lower, 0);
  }

  // ---- What a scan is, without saying how it is done

  ghost predicate Mentions(text: string, table: seq<Candidate>, lower: string -> string, at: nat, c: Candidate)
    requires AllNamed(table)
  {
    Opens(text, at) && exists k :: 0 <= k < |table| && table[k] == c && IsBest(text, at, table, lower, |table|, k)
  }

  predicate Covers(m: Match, at: nat) {
    m.at <= at < End(m)
  }

  ghost predicate AllBest(text: string, table: seq<Candidate>, lower: string -> string, from: nat, ms: seq<Match>)
    requires AllNamed(table)
  {
    forall k :: 0 <= k < |ms| ==> from <= ms[k].at && Mentions(text, table, lower, ms[k].at, ms[k].candidate)
  }

  predicate Apart(ms: seq<Match>) {
    forall j, k :: 0 <= j < k < |ms| ==> End(ms[j]) <= ms[k].at
  }

  function End(m: Match): nat {
    m.at + 1 + |m.candidate.term|
  }

  ghost predicate NoneMissed(text: string, table: seq<Candidate>, lower: string -> string, from: nat, ms: seq<Match>)
    requires AllNamed(table)
  {
    forall at: nat, c :: from <= at && Mentions(text, table, lower, at, c) ==> Covered(ms, at)
  }

  /** Every match is the best mention at its place, matches do not overlap, and no mention outside them is missed. */
  ghost predicate MaximalMunch(text: string, table: seq<Candidate>, lower: string -> string, from: nat,
                               ms: seq<Match>)
    requires AllNamed(table)
  {
    AllBest(text, table, lower, from, ms) && Apart(ms) && NoneMissed(text, table, lower, from, ms)
  }

  predicate Covered(matches: seq<Match>, at: nat) {
    exists k :: 0 <= k < |matches| && Covers(matches[k], at)
  }

  lemma PickMentions(text: string, at: nat, table: seq<Candidate>, lower: string -> string, c: Candidate)
    requires AllNamed(table) && Opens(text, at)
    ensures Mentions(text, table, lower, at, c) <==> Pick(Backend, text, at, table, lower) == Some(c)
  {
    BestIsBest(text, at, table, lower, |table|);
  }

  lemma PrependMissesNone(text: string, table: seq<Candidate>, lower: string -> string, m: Match, rest: seq<Match>)
    requires AllNamed(table) && NoneMissed(text, table, lower, End(m), rest)
    ensures NoneMissed(text, table, lower, m.at, [m] + rest)
  {
    var all := [m] + rest;
    forall at: nat, c | m.at <= at && Mentions(text, table, lower, at, c)
      ensures Covered(all, at)
    {
      if Covers(m, at) {
        assert Covers(all[0], at);
      } else {
        assert Covered(rest, at);
        var k :| 0 <= k < |rest| && Covers(rest[k], at);
        assert Covers(all[k + 1], at);
      }
    }
  }

  lemma PrependStaysApart(text: string, table: seq<Candidate>, lower: string -> string, m: Match, rest: seq<Match>)
    requires AllNamed(table) && Mentions(text, table, lower, m.at, m.candidate)
    requires AllBest(text, table, lower, End(m), rest) && Apart(rest)
    ensures AllBest(text, table, lower, m.at, [m] + rest) && Apart([m] + rest)
  {
  }

  lemma Prepend(text: string, table: seq<Candidate>, lower: string -> string, m: Match, rest: seq<Match>)
    requires AllNamed(table) && Mentions(text, table, lower, m.at, m.candidate)
    requires MaximalMunch(text, table, lower, End(m), rest)
    ensures MaximalMunch(text, table, lower, m.at, [m] + rest)
  {
    PrependMissesNone(text, table, lower, m, rest);
    PrependStaysApart(text, table, lower, m, rest);
  }

  lemma Miss(text: string, table: seq<Candidate>, lower: string -> string, position: nat, ms: seq<Match>)
    requires AllNamed(table) && MaximalMunch(text, table, lower, position + 1, ms)
    requires Opens(text, position) ==> Pick(Backend, text, position, table, lower).None?
    ensures MaximalMunch(text, table, lower, position, ms)
  {
    forall c
      ensures !Mentions(text, table, lower, position, c)
    {
      if Opens(text, position) {
        PickMentions(text, position, table, lower, c);
      }
    }
    assert NoneMissed(text, table, lower, position, ms);
  }

  lemma NothingToMiss(text: string, table: seq<Candidate>, lower: string -> string, position: nat)
    requires AllNamed(table) && |text| <= position
    ensures MaximalMunch(text, table, lower, position, [])
  {
  }

  lemma ScanUnfolds(text: string, table: seq<Candidate>, lower: string -> string, position: nat)
    requires AllNamed(table) && KeepsLength(lower) && position < |text|
    ensures var picked := if Opens(text, position) then Pick(Backend, text, position, table, lower) else None;
            Scan(Backend, text, table, lower, position) ==
            if picked.None? then Scan(Backend, text, table, lower, position + 1)
            else
              var m := Match(position, picked.value);
              [m] + Scan(Backend, text, table, lower, End(m))
  {
  }

  lemma {:induction false} ScanFromIsMaximalMunch(text: string, table: seq<Candidate>, lower: string -> string,
                                                  position: nat, ms: seq<Match>)
    requires AllNamed(table) && KeepsLength(lower) && ms == Scan(Backend, text, table, lower, position)
    ensures MaximalMunch(text, table, lower, position, ms)
    decreases |text| - position
  {
    if |text| <= position {
      NothingToMiss(text, table, lower, position);
    } else {
      ScanUnfolds(text, table, lower, position);
      var picked := if Opens(text, position) then Pick(Backend, text, position, table, lower) else None;
      if picked.Some? {
        var m := Match(position, picked.value);
        var rest := Scan(Backend, text, table, lower, End(m));
        ScanFromIsMaximalMunch(text, table, lower, End(m), rest);
        PickMentions(text, position, table, lower, m.candidate);
        Prepend(text, table, lower, m, rest);
        assert ms == [m] + rest;
      } else {
        ScanFromIsMaximalMunch(text, table, lower, position + 1, ms);
        Miss(text, table, lower, position, ms);
      }
    }
  }

  lemma OneMentionEach(text: string, table: seq<Candidate>, lower: string -> string, at: nat, c: Candidate,
                       d: Candidate)
    requires AllNamed(table) && Mentions(text, table, lower, at, c) && Mentions(text, table, lower, at, d)
    ensures c == d
  {
    PickMentions(text, at, table, lower, c);
    PickMentions(text, at, table, lower, d);
  }

  /** The first match of one description does not begin before the first match of another. */
  lemma NoEarlierStart(text: string, table: seq<Candidate>, lower: string -> string, from: nat, a: seq<Match>,
                       b: seq<Match>)
    requires AllNamed(table) && a != []
    requires MaximalMunch(text, table, lower, from, a) && MaximalMunch(text, table, lower, from, b)
    ensures b != [] && b[0].at <= a[0].at
  {
    assert Mentions(text, table, lower, a[0].at, a[0].candidate);
    assert Covered(b, a[0].at);
    var k :| 0 <= k < |b| && Covers(b[k], a[0].at);
    assert k == 0 || End(b[0]) <= b[k].at;
  }

  lemma Tail(text: string, table: seq<Candidate>, lower: string -> string, from: nat, a: seq<Match>)
    requires AllNamed(table) && a != [] && MaximalMunch(text, table, lower, from, a)
    ensures MaximalMunch(text, table, lower, End(a[0]), a[1..])
  {
    assert AllBest(text, table, lower, End(a[0]), a[1..]);
    TailMissesNone(text, table, lower, from, a);
  }

  lemma TailMissesNone(text: string, table: seq<Candidate>, lower: string -> string, from: nat, a: seq<Match>)
    requires AllNamed(table) && a != [] && from <= a[0].at && NoneMissed(text, table, lower, from, a)
    ensures NoneMissed(text, table, lower, End(a[0]), a[1..])
  {
    var rest := a[1..];
    forall at: nat, c | End(a[0]) <= at && Mentions(text, table, lower, at, c)
      ensures Covered(rest, at)
    {
      assert Covered(a, at);
      var k :| 0 <= k < |a| && Covers(a[k], at);
      assert k > 0 && Covers(rest[k - 1], at);
    }
  }

  lemma SameStart(text: string, table: seq<Candidate>, lower: string -> string, from: nat, a: seq<Match>,
                  b: seq<Match>)
    requires AllNamed(table) && a != [] && b != []
    requires MaximalMunch(text, table, lower, from, a) && MaximalMunch(text, table, lower, from, b)
    ensures a[0] == b[0]
  {
    NoEarlierStart(text, table, lower, from, a, b);
    NoEarlierStart(text, table, lower, from, b, a);
    OneMentionEach(text, table, lower, a[0].at, a[0].candidate, b[0].candidate);
  }

  lemma SplitFirst(a: seq<Match>, b: seq<Match>)
    requires a != [] && b != [] && a[0] == b[0] && a[1..] == b[1..]
    ensures a == b
  {
    assert a == [a[0]] + a[1..] && b == [b[0]] + b[1..];
  }

  /** The description fixes the matches. */
  lemma {:induction false} MaximalMunchIsUnique(text: string, table: seq<Candidate>, lower: string -> string,
                                                from: nat, a: seq<Match>, b: seq<Match>)
    requires AllNamed(table)
    requires MaximalMunch(text, table, lower, from, a) && MaximalMunch(text, table, lower, from, b)
    ensures a == b
    decreases |a|
  {
    if a == [] {
      if b != [] {
        NoEarlierStart(text, table, lower, from, b, a);
      }
    } else {
      NoEarlierStart(text, table, lower, from, a, b);
      SameStart(text, table, lower, from, a, b);
      Tail(text, table, lower, from, a);
      Tail(text, table, lower, from, b);
      MaximalMunchIsUnique(text, table, lower, End(a[0]), a[1..], b[1..]);
      SplitFirst(a, b);
    }
  }

  /** Whatever non-overlapping best mentions are found without missing one, the targets are those the backend scan
      returns, so a scanner is right exactly when it meets the description. */
  lemma ScanMeetsOnlyTheDescription(text: string, table: seq<Candidate>, lower: string -> string, ms: seq<Match>)
    requires AllNamed(table) && KeepsLength(lower)
    ensures MaximalMunch(text, table, lower, 0, ms) <==> ms == Scan(Backend, text, table, lower, 0)
  {
    var scan := Scan(Backend, text, table, lower, 0);
    ScanFromIsMaximalMunch(text, table, lower, 0, scan);
    if MaximalMunch(text, table, lower, 0, ms) {
      MaximalMunchIsUnique(text, table, lower, 0, ms, scan);
    }
  }
}
