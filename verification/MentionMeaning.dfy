/** What a mention is, character by character, and which of the terms that fit at a place both scanners take. */
module MentionMeaning {
  import opened Wrappers
  import opened MentionScan
  import opened MentionTheorems

  /** A letter, a digit or an underscore of ASCII, by its code. */
  predicate Word(c: char) {
    var n := c as int;
    48 <= n <= 57 || 65 <= n <= 90 || n == 95 || 97 <= n <= 122
  }

  /** The term stands at the start of `rest`, up to case, over `n` characters; if it ends in a word character, none
      follows it. */
  predicate StandsAt(rest: string, term: string, n: nat, lower: string -> string)
    requires term != ""
  {
    && |lower(term)| <= |lower(rest)| && lower(rest)[..|lower(term)|] == lower(term)
    && (Word(term[|term| - 1]) && n < |rest| ==> !Word(rest[n]))
  }

  /** At this place stands an at sign, in one of its two widths, that follows no word character. */
  predicate AtSign(text: string, at: nat) {
    && at < |text| && (text[at] as int == 0x40 || text[at] as int == 0xFF20)
    && (at > 0 ==> !Word(text[at - 1]))
  }

  lemma WordIsWordChar(c: char)
    ensures WordChar(c) <==> Word(c)
  {
  }

  lemma OpensMeans(text: string, at: nat)
    ensures Opens(text, at) <==> AtSign(text, at)
  {
    if 0 < at <= |text| {
      WordIsWordChar(text[at - 1]);
    }
  }

  lemma FitsMeans(side: Side, text: string, at: nat, c: Candidate, lower: string -> string)
    requires at < |text| && c.term != ""
    ensures Fits(side, text, at, c, lower)
            <==> StandsAt(text[at + 1..], c.term, if side == Backend then |lower(c.term)| else |c.term|, lower)
  {
    var rest, n := text[at + 1..], Length(side, c, lower);
    WordIsWordChar(c.term[|c.term| - 1]);
    if n < |rest| {
      WordIsWordChar(rest[n]);
    }
    assert lower(c.term) <= lower(rest)
      <==> |lower(c.term)| <= |lower(rest)| && lower(rest)[..|lower(c.term)|] == lower(c.term);
  }

  /** Of the terms that stand after the at sign the backend takes the longest; of those of one length an agent's rather
      than a node's, and then the first of the table. */
  ghost predicate BackendTakes(rest: string, table: seq<Candidate>, lower: string -> string, k: nat)
    requires AllNamed(table) && k < |table|
  {
    && StandsAt(rest, table[k].term, |lower(table[k].term)|, lower)
    && forall j :: 0 <= j < |table| && j != k && StandsAt(rest, table[j].term, |lower(table[j].term)|, lower) ==>
         || |lower(table[j].term)| < |lower(table[k].term)|
         || (&& |lower(table[j].term)| == |lower(table[k].term)|
             && if table[j].target.Agent? == table[k].target.Agent? then k < j else table[k].target.Agent?)
  }

  /** The browser takes the longest, and of those of one length the first of the table. */
  ghost predicate BrowserTakes(rest: string, table: seq<Candidate>, lower: string -> string, k: nat)
    requires AllNamed(table) && k < |table|
  {
    && StandsAt(rest, table[k].term, |table[k].term|, lower)
    && forall j :: 0 <= j < |table| && j != k && StandsAt(rest, table[j].term, |table[j].term|, lower) ==>
         || |table[j].term| < |table[k].term|
         || (|table[j].term| == |table[k].term| && k < j)
  }

  lemma BestMeans(text: string, at: nat, table: seq<Candidate>, lower: string -> string, k: nat)
    requires AllNamed(table) && at < |text| && k < |table|
    ensures IsBest(text, at, table, lower, |table|, k) <==> BackendTakes(text[at + 1..], table, lower, k)
  {
    forall j | 0 <= j < |table|
      ensures Fits(Backend, text, at, table[j], lower)
              <==> StandsAt(text[at + 1..], table[j].term, |lower(table[j].term)|, lower)
    {
      FitsMeans(Backend, text, at, table[j], lower);
    }
  }

  /** The backend reads a mention of candidate `c` at a place if and only if an at sign stands there and the table has
      `c` where the backend takes it. */
  lemma BackendPicks(text: string, at: nat, table: seq<Candidate>, lower: string -> string, c: Candidate)
    requires AllNamed(table) && at < |text|
    ensures Pick(Backend, text, at, table, lower) == Some(c)
            <==> exists k: nat :: k < |table| && table[k] == c && BackendTakes(text[at + 1..], table, lower, k)
    ensures Mentions(text, table, lower, at, c)
            <==> AtSign(text, at) && Pick(Backend, text, at, table, lower) == Some(c)
  {
    BestIsBest(text, at, table, lower, |table|);
    var best := BestIndex(text, at, table, lower, |table|);
    if best.Some? {
      BestMeans(text, at, table, lower, best.value);
    }
    forall k: nat | k < |table|
      ensures IsBest(text, at, table, lower, |table|, k) <==> BackendTakes(text[at + 1..], table, lower, k)
    {
      BestMeans(text, at, table, lower, k);
    }
    OpensMeans(text, at);
    if Opens(text, at) {
      PickMentions(text, at, table, lower, c);
    }
  }

  lemma LongestMeans(text: string, at: nat, table: seq<Candidate>, lower: string -> string, k: nat)
    requires AllNamed(table) && at < |text| && k < |table|
    ensures IsLongest(text, at, table, lower, k) <==> BrowserTakes(text[at + 1..], table, lower, k)
  {
    forall j | 0 <= j < |table|
      ensures Fits(Frontend, text, at, table[j], lower)
              <==> StandsAt(text[at + 1..], table[j].term, |table[j].term|, lower)
    {
      FitsMeans(Frontend, text, at, table[j], lower);
    }
  }

  /** So does the browser, by its own lengths. */
  lemma BrowserPicks(text: string, at: nat, table: seq<Candidate>, lower: string -> string, c: Candidate)
    requires AllNamed(table) && at < |text|
    ensures Pick(Frontend, text, at, table, lower) == Some(c)
            <==> exists k: nat :: k < |table| && table[k] == c && BrowserTakes(text[at + 1..], table, lower, k)
  {
    SortedSearchFindsLongest(text, at, table, lower);
    var longest := LongestIsLongest(text, at, table, lower);
    forall k: nat | k < |table|
      ensures IsLongest(text, at, table, lower, k) <==> BrowserTakes(text[at + 1..], table, lower, k)
    {
      LongestMeans(text, at, table, lower, k);
    }
    if Pick(Frontend, text, at, table, lower) == Some(c) {
      assert BrowserTakes(text[at + 1..], table, lower, longest);
    }
    if k: nat :| k < |table| && table[k] == c && BrowserTakes(text[at + 1..], table, lower, k) {
      assert IsLongest(text, at, table, lower, k);
    }
  }

  /** A list of matches is the backend's scan if and only if each is a mention, each begins behind the end of the one
      before, and every mention begins in one of them. */
  lemma ScanExactly(text: string, table: seq<Candidate>, lower: string -> string, ms: seq<Match>)
    requires AllNamed(table) && KeepsLength(lower)
    ensures ms == Scan(Backend, text, table, lower, 0) <==>
              && (forall k :: 0 <= k < |ms| ==>
                    AtSign(text, ms[k].at) && Pick(Backend, text, ms[k].at, table, lower) == Some(ms[k].candidate))
              && (forall j, k :: 0 <= j < k < |ms| ==> ms[j].at + 1 + |ms[j].candidate.term| <= ms[k].at)
              && forall at: nat :: AtSign(text, at) && Pick(Backend, text, at, table, lower).Some? ==>
                   exists k :: 0 <= k < |ms| && ms[k].at <= at <= ms[k].at + |ms[k].candidate.term|
  {
    ScanMeetsOnlyTheDescription(text, table, lower, ms);
    AllBestMeans(text, table, lower, ms);
    NoneMissedMeans(text, table, lower, ms);
  }

  lemma AllBestMeans(text: string, table: seq<Candidate>, lower: string -> string, ms: seq<Match>)
    requires AllNamed(table)
    ensures AllBest(text, table, lower, 0, ms) <==>
              forall k :: 0 <= k < |ms| ==>
                AtSign(text, ms[k].at) && Pick(Backend, text, ms[k].at, table, lower) == Some(ms[k].candidate)
  {
    forall k | 0 <= k < |ms|
      ensures Mentions(text, table, lower, ms[k].at, ms[k].candidate) <==>
                && AtSign(text, ms[k].at)
                && Pick(Backend, text, ms[k].at, table, lower) == Some(ms[k].candidate)
    {
      MentionMeansPick(text, table, lower, ms[k].at, ms[k].candidate);
    }
  }

  lemma MentionMeansPick(text: string, table: seq<Candidate>, lower: string -> string, at: nat, c: Candidate)
    requires AllNamed(table)
    ensures Mentions(text, table, lower, at, c)
            <==> AtSign(text, at) && Pick(Backend, text, at, table, lower) == Some(c)
  {
    if at < |text| {
      BackendPicks(text, at, table, lower, c);
    }
  }

  lemma CoveredMeans(ms: seq<Match>, at: nat)
    ensures Covered(ms, at) <==> exists k :: 0 <= k < |ms| && ms[k].at <= at <= ms[k].at + |ms[k].candidate.term|
  {
    if k :| 0 <= k < |ms| && ms[k].at <= at <= ms[k].at + |ms[k].candidate.term| {
      assert Covers(ms[k], at);
    }
  }

  lemma NoneMissedMeans(text: string, table: seq<Candidate>, lower: string -> string, ms: seq<Match>)
    requires AllNamed(table)
    ensures NoneMissed(text, table, lower, 0, ms) <==>
              forall at: nat :: AtSign(text, at) && Pick(Backend, text, at, table, lower).Some? ==>
                exists k :: 0 <= k < |ms| && ms[k].at <= at <= ms[k].at + |ms[k].candidate.term|
  {
    forall at: nat, c
      ensures Mentions(text, table, lower, at, c)
              <==> AtSign(text, at) && Pick(Backend, text, at, table, lower) == Some(c)
    {
      MentionMeansPick(text, table, lower, at, c);
    }
    forall at: nat
      ensures Covered(ms, at) <==> exists k :: 0 <= k < |ms| && ms[k].at <= at <= ms[k].at + |ms[k].candidate.term|
    {
      CoveredMeans(ms, at);
    }
    if NoneMissed(text, table, lower, 0, ms) {
      forall at: nat | AtSign(text, at) && Pick(Backend, text, at, table, lower).Some?
        ensures Covered(ms, at)
      {
        assert Mentions(text, table, lower, at, Pick(Backend, text, at, table, lower).value);
      }
    }
  }
}
