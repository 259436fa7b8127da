/** Which ids a relay chain keeps, and what its stored text looks like. */
module RelayMeaning {
  import opened Wrappers
  import opened Dedup
  import opened JsonInts
  import opened RelayChain

  /** Position `places[k]` of `ids` is the first of the positive id `chain[k]`. */
  ghost predicate FirstPositives(ids: seq<int>, chain: seq<int>, places: seq<nat>) {
    && |places| == |chain|
    && (forall k, l :: 0 <= k < l < |places| ==> places[k] < places[l])
    && forall k :: 0 <= k < |places| ==>
         places[k] < |ids| && ids[places[k]] == chain[k] > 0 && chain[k] !in ids[..places[k]]
  }

  lemma {:induction false} PositivePlaces(ids: seq<int>) returns (places: seq<nat>)
    ensures FirstPositives(ids, FirstOccurrences(Positive(ids)), places)
    ensures forall p :: 0 <= p < |ids| && ids[p] > 0 ==> ids[p] in FirstOccurrences(Positive(ids))
  {
    if ids == [] {
      places := [];
    } else {
      var front, last := ids[..|ids| - 1], ids[|ids| - 1];
      assert ids == front + [last];
      places := PositivePlaces(front);
      ChainSnoc(front, last);
      places := OneIdMore(front, last, FirstOccurrences(Positive(front)), places);
    }
  }

  lemma OneIdMore(front: seq<int>, last: int, chain: seq<int>, before: seq<nat>) returns (places: seq<nat>)
    requires FirstPositives(front, chain, before) && forall p :: 0 <= p < |front| && front[p] > 0 ==> front[p] in chain
    ensures var ids, all := front + [last], if last > 0 && last !in chain then chain + [last] else chain;
            FirstPositives(ids, all, places) && forall p :: 0 <= p < |ids| && ids[p] > 0 ==> ids[p] in all
  {
    FirstsStay(front, last, chain, before);
    places := before;
    if last > 0 && last !in chain {
      assert forall p :: 0 <= p < |front| ==> front[p] != last;
      assert (front + [last])[..|front|] == front;
      places := before + [|front|];
    }
  }

  lemma FirstsStay(front: seq<int>, last: int, chain: seq<int>, places: seq<nat>)
    requires FirstPositives(front, chain, places)
    ensures FirstPositives(front + [last], chain, places)
  {
    forall k | 0 <= k < |places|
      ensures (front + [last])[..places[k]] == front[..places[k]]
    {
    }
  }

  lemma NotAmong(s: seq<int>, n: nat, k: nat)
    requires n <= |s| && k < |s| && s[k] !in s[..n]
    ensures n <= k
  {
  }

  /** A chain is the first six of the distinct positive ids, in the order in which they first occur. */
  lemma ChainExactly(ids: seq<int>) returns (places: seq<nat>)
    ensures FirstPositives(ids, Chain(ids), places) && |Chain(ids)| <= 6
    ensures forall p :: 0 <= p < |ids| && ids[p] > 0 && ids[p] !in Chain(ids) ==> |places| == 6 && places[5] < p
  {
    var all := FirstOccurrences(Positive(ids));
    places := PositivePlaces(ids);
    if |all| > 6 {
      var whole := places;
      places := whole[..6];
      forall p | 0 <= p < |ids| && ids[p] > 0 && ids[p] !in Chain(ids)
        ensures places[5] < p
      {
        var k :| 0 <= k < |all| && all[k] == ids[p];
        NotAmong(all, 6, k);
        NotAmong(ids, whole[k], p);
        assert whole[5] < whole[k];
      }
    }
  }

  /** What is read back: nothing from a text that is no array of integers, nothing from one with an id that is not
      positive, and otherwise the chain of its ids. */
  lemma ReadExactly(raw: Option<string>, items: seq<int>)
    ensures raw.None? || Parse(raw.value).None? ==> Read(raw) == []
    ensures raw.Some? && Parse(raw.value) == Some(items) ==>
              Read(raw) == if exists i :: 0 <= i < |items| && items[i] <= 0 then [] else Chain(items)
  {
    if forall i :: 0 <= i < |items| ==> items[i] > 0 {
      PositiveKeepsAll(items);
    }
  }

  predicate DigitOrComma(c: char) {
    c as int == 0x2C || 0x30 <= c as int <= 0x39
  }

  ghost predicate Compacted(s: string) {
    forall i :: 0 <= i < |s| ==> DigitOrComma(s[i])
  }

  lemma {:induction false} DecimalIsCompact(n: nat)
    ensures Compacted(Decimal(n))
  {
    if n >= 10 {
      DecimalIsCompact(n / 10);
    }
  }

  lemma {:induction false} JoinedIsCompact(ids: seq<int>)
    requires ids != [] && AllPositive(ids)
    ensures Compacted(Joined(ids))
  {
    DecimalIsCompact(ids[0]);
    if |ids| > 1 {
      JoinedIsCompact(ids[1..]);
    }
  }

  /** A chain is stored if and only if it has two ids or more, as a text of digits and commas in brackets that reads as
      exactly the chain. */
  lemma StoredText(ids: seq<int>)
    ensures Stored(ids).Some? <==> |Chain(ids)| >= 2
    ensures Stored(ids).Some? ==>
              var text := Stored(ids).value;
              && Parse(text) == Some(Chain(ids))
              && |text| > 2 && text[0] as int == 0x5B && text[|text| - 1] as int == 0x5D
              && forall i :: 0 < i < |text| - 1 ==> DigitOrComma(text[i])
  {
    var chain := Chain(ids);
    ChainIsClean(Positive(ids));
    if |chain| >= 2 {
      JsonTextParses(chain);
      JoinedIsCompact(chain);
      InBrackets(Joined(chain), Stored(ids).value);
    }
  }

  lemma InBrackets(s: string, text: string)
    requires s != "" && Compacted(s) && text == "[" + s + "]"
    ensures |text| > 2 && text[0] as int == 0x5B && text[|text| - 1] as int == 0x5D
    ensures forall i :: 0 < i < |text| - 1 ==> DigitOrComma(text[i])
  {
    assert forall i :: 0 < i < |text| - 1 ==> text[i] == s[i - 1];
  }
}
