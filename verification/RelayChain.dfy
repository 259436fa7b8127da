/** Relay chains: the agents a message mentions, as they are stored, read back, and previewed while typing. */
module RelayChain {
  import opened Wrappers
  import opened Dedup
  import opened JsonInts
  import opened MentionScan
  import opened MentionTables
  import opened MentionTheorems

  const MAX_RELAY_AGENTS := 6

  function Limited<T>(s: seq<T>): seq<T> {
    if |s| <= MAX_RELAY_AGENTS then s else s[..MAX_RELAY_AGENTS]
  }

  predicate AllPositive(ids: seq<int>) {
    forall i :: 0 <= i < |ids| ==> ids[i] > 0
  }

  function Positive(ids: seq<int>): (r: seq<int>)
    ensures AllPositive(r)
  {
    if ids == [] then []
    else
      var front, last := Positive(ids[..|ids| - 1]), ids[|ids| - 1];
      if last > 0 then front + [last] else front
  }

  /** The de-duplicated positive ids, at most six. */
  function Chain(ids: seq<int>): seq<int> {
    Limited(FirstOccurrences(Positive(ids)))
  }

  // ---- Numbers and lists as text

  function Decimal(n: nat): (r: string)
    ensures r != ""
  {
    if n < 10 then [DigitChar(n)] else Decimal(n / 10) + [DigitChar(n % 10)]
  }

  function DigitChar(n: nat): (c: char)
    requires n < 10
    ensures IsDigit(c) && DigitValue(c) == n
  {
    ('0' as int + n) as char
  }

  lemma {:induction false} DecimalIsNumeral(n: nat)
    ensures IsNumeral(Decimal(n)) && Value(Decimal(n)) == n && (Decimal(n)[0] == '0' ==> n == 0)
  {
    var d := Decimal(n);
    if n >= 10 {
      DecimalIsNumeral(n / 10);
      assert d[..|d| - 1] == Decimal(n / 10);
    } else {
      assert d[..|d| - 1] == "";
    }
  }

  function Joined(ids: seq<int>): string
    requires ids != [] && AllPositive(ids)
  {
    Decimal(ids[0]) + if |ids| == 1 then "" else "," + Joined(ids[1..])
  }

  function JsonText(ids: seq<int>): string
    requires ids != [] && AllPositive(ids)
  {
    "[" + Joined(ids) + "]"
  }

  function Compact(ids: seq<int>): (es: seq<Element>)
    requires AllPositive(ids)
    ensures |es| == |ids|
  {
    if ids == [] then [] else [Element("", false, Decimal(ids[0]), "")] + Compact(ids[1..])
  }

  lemma CompactElement(id: int)
    requires id > 0
    ensures var e := Element("", false, Decimal(id), "");
            IsElement(e) && ElementValue(e) == id && ElementText(e) == Decimal(id)
  {
    DecimalIsNumeral(id);
  }

  lemma {:induction false} CompactHasValues(ids: seq<int>)
    requires AllPositive(ids)
    ensures AllElements(Compact(ids)) && Values(Compact(ids)) == ids
  {
    if ids != [] {
      CompactElement(ids[0]);
      CompactHasValues(ids[1..]);
      ValuesPrepend(Compact(ids)[0], Compact(ids[1..]));
      assert ids == [ids[0]] + ids[1..];
    }
  }

  lemma {:induction false} CompactIsJoined(ids: seq<int>)
    requires AllPositive(ids) && ids != []
    ensures ElementsText(Compact(ids), "") == Joined(ids) + "]"
  {
    var rest := ids[1..];
    CompactElement(ids[0]);
    if rest == [] {
      assert ElementsText(Compact(ids), "") == Decimal(ids[0]) + ("]" + "");
      assert Joined(ids) == Decimal(ids[0]);
    } else {
      CompactIsJoined(rest);
      TextPrepend(Compact(ids)[0], Compact(rest), "");
      assert Joined(ids) + "]" == Decimal(ids[0]) + ("," + (Joined(rest) + "]"));
    }
  }

  lemma JsonTextParses(ids: seq<int>)
    requires ids != [] && AllPositive(ids)
    ensures Parse(JsonText(ids)) == Some(ids)
  {
    var layout := Layout("", "", Compact(ids), "");
    CompactHasValues(ids);
    CompactIsJoined(ids);
    ParsesEveryLayout(layout);
    assert "" + ("[" + (Joined(ids) + "]")) == JsonText(ids);
  }

  // ---- Storing and reading a chain

  /** What `dump_relay_agent_ids` stores; fewer than two hops are no relay. */
  function Stored(ids: seq<int>): Option<string> {
    var chain := Chain(ids);
    ChainIsClean(Positive(ids));
    if |chain| < 2 then None else Some(JsonText(chain))
  }

  /** What `parse_relay_agent_ids` makes of a stored text; dirty text is an empty chain. */
  function Read(raw: Option<string>): seq<int> {
    if raw.None? || Parse(raw.value).None? then [] else Accepted(Parse(raw.value).value)
  }

  /** One id that is not positive spoils the whole list. */
  function Accepted(items: seq<int>): seq<int> {
    if AllPositive(items) then Limited(FirstOccurrences(items)) else []
  }

  lemma ChainIsClean(ids: seq<int>)
    requires AllPositive(ids)
    ensures var chain := Limited(FirstOccurrences(ids));
            AllPositive(chain) && Distinct(chain) && |chain| <= MAX_RELAY_AGENTS
  {
    var _ := KeepsFirstOccurrences(ids);
    var all := FirstOccurrences(ids);
    forall i | 0 <= i < |all|
      ensures all[i] > 0
    {
      assert all[i] in ids;
    }
  }

  lemma ChainSnoc(ids: seq<int>, id: int)
    ensures var chain := FirstOccurrences(Positive(ids));
            FirstOccurrences(Positive(ids + [id])) == if id > 0 && id !in chain then chain + [id] else chain
  {
    assert (ids + [id])[..|ids|] == ids;
    FirstOccurrencesSnoc(Positive(ids), id);
  }

  /** The chain when all of `ids` has been looked at, and when one more has. */
  ghost predicate ChainSoFar(ids: seq<int>, chain: seq<int>) {
    chain == FirstOccurrences(Positive(ids))
  }

  lemma ChainStep(ids: seq<int>, id: int, more: seq<int>, chain: seq<int>)
    requires more == ids + [id] && ChainSoFar(ids, chain)
    ensures ChainSoFar(more, if id > 0 && id !in chain then chain + [id] else chain)
  {
    ChainSnoc(ids, id);
  }

  method DistinctPositive(agentIds: seq<int>) returns (chain: seq<int>)
    ensures chain == FirstOccurrences(Positive(agentIds))
  {
    chain := [];
    for i := 0 to |agentIds|
      invariant ChainSoFar(agentIds[..i], chain)
    {
      ChainStep(agentIds[..i], agentIds[i], agentIds[..i + 1], chain);
      if agentIds[i] > 0 && agentIds[i] !in chain {
        chain := chain + [agentIds[i]];
      }
    }
    assert agentIds[..|agentIds|] == agentIds;
  }

  method DumpRelayAgentIds(agentIds: seq<int>) returns (text: Option<string>)
    ensures text == Stored(agentIds)
  {
    var chain := DistinctPositive(agentIds);
    ChainIsClean(Positive(agentIds));
    chain := Limited(chain);
    text := if |chain| < 2 then None else Some(JsonText(chain));
  }

  method ParseRelayAgentIds(raw: Option<string>) returns (ids: seq<int>)
    ensures ids == Read(raw)
  {
    if raw.None? {
      return [];
    }
    var value := Parse(raw.value);
    if value.None? {
      return [];
    }
    ids := AcceptItems(value.value);
  }

  /** The ids when all of `items` has been accepted. */
  ghost predicate AcceptedSoFar(items: seq<int>, ids: seq<int>) {
    AllPositive(items) && ids == FirstOccurrences(items)
  }

  lemma AcceptOne(items: seq<int>, item: int, more: seq<int>, ids: seq<int>)
    requires more == items + [item] && AcceptedSoFar(items, ids) && item > 0
    ensures AcceptedSoFar(more, if item !in ids then ids + [item] else ids)
  {
    FirstOccurrencesSnoc(items, item);
  }

  lemma RefuseOne(items: seq<int>, i: nat)
    requires i < |items| && items[i] <= 0
    ensures Accepted(items) == []
  {
  }

  method AcceptItems(items: seq<int>) returns (ids: seq<int>)
    ensures ids == Accepted(items)
  {
    ids := [];
    for i := 0 to |items|
      invariant AcceptedSoFar(items[..i], ids)
    {
      if items[i] <= 0 {
        RefuseOne(items, i);
        return [];
      }
      AcceptOne(items[..i], items[i], items[..i + 1], ids);
      if items[i] !in ids {
        ids := ids + [items[i]];
      }
    }
    assert items[..|items|] == items;
    ids := Limited(ids);
  }

  lemma DistinctPrefix(s: seq<int>)
    requires Distinct(s)
    ensures Limited(FirstOccurrences(s)) == Limited(s)
  {
    DistinctStays(s);
  }

  /** Reading what was stored gives the de-duplicated positive prefix of at most six ids when it has two or more, and
      nothing otherwise. */
  lemma RoundTrip(ids: seq<int>)
    ensures Read(Stored(ids)) == if |Chain(ids)| < 2 then [] else Chain(ids)
  {
    var chain := Chain(ids);
    ChainIsClean(Positive(ids));
    if |chain| >= 2 {
      JsonTextParses(chain);
      DistinctPrefix(chain);
    }
  }

  /** Whatever text is stored, a chain that is read back holds at most six distinct positive ids; storing it again
      and reading it changes nothing unless it is a single id, which is never stored. */
  lemma AnyReadIsClean(raw: Option<string>)
    ensures var ids := Read(raw);
            && AllPositive(ids) && Distinct(ids) && |ids| <= MAX_RELAY_AGENTS
            && Read(Stored(ids)) == if |ids| == 1 then [] else ids
  {
    var ids := Read(raw);
    if raw.Some? && Parse(raw.value).Some? && AllPositive(Parse(raw.value).value) {
      ChainIsClean(Parse(raw.value).value);
    }
    PositiveKeepsAll(ids);
    DistinctPrefix(ids);
    RoundTrip(ids);
  }

  lemma {:induction false} PositiveKeepsAll(ids: seq<int>)
    requires AllPositive(ids)
    ensures Positive(ids) == ids
  {
    if ids != [] {
      PositiveKeepsAll(ids[..|ids| - 1]);
    }
  }

  // ---- The preview while typing

  function AgentIds(targets: seq<Target>): seq<int> {
    if targets == [] then []
    else
      var last := targets[|targets| - 1];
      AgentIds(targets[..|targets| - 1]) + if last.Agent? then [last.id] else []
  }

  /** The agents a sent message puts in its relay, before they are stored. */
  function RelayOf(text: string, table: seq<Candidate>, lower: string -> string): seq<int>
    requires AllNamed(table)
  {
    Limited(FirstOccurrences(AgentIds(Mentioned(Backend, text, table, lower))))
  }

  /** A chain has two hops at least, and six at most. */
  function ChainOf(agents: seq<int>): seq<int> {
    if |agents| < 2 then [] else Limited(agents)
  }

  function Preview(text: string, table: seq<Candidate>, lower: string -> string): seq<int>
    requires AllNamed(table)
  {
    ChainOf(AgentIds(Mentioned(Frontend, text, table, lower)))
  }

  lemma {:induction false} AgentIdsComeFromTargets(targets: seq<Target>, id: int)
    ensures id in AgentIds(targets) <==> Agent(id) in targets
  {
    if targets != [] {
      var front, last := targets[..|targets| - 1], targets[|targets| - 1];
      AgentIdsComeFromTargets(front, id);
      assert targets == front + [last];
    }
  }

  lemma {:induction false} DistinctAgentIds(targets: seq<Target>)
    requires Distinct(targets)
    ensures Distinct(AgentIds(targets))
  {
    if targets != [] {
      var front, last := targets[..|targets| - 1], targets[|targets| - 1];
      DistinctAgentIds(front);
      assert targets == front + [last];
      if last.Agent? {
        AgentIdsComeFromTargets(front, last.id);
      }
    }
  }

  lemma MentionedAreInTable(text: string, table: seq<Candidate>, lower: string -> string, t: Target)
    requires AllNamed(table) && KeepsLength(lower) && t in Mentioned(Backend, text, table, lower)
    ensures exists i :: 0 <= i < |table| && table[i].target == t
  {
    var matches := Scan(Backend, text, table, lower, 0);
    ScanFromIsMaximalMunch(text, table, lower, 0, matches);
    var _ := KeepsFirstOccurrences(TargetsOf(matches));
    assert t in TargetsOf(matches);
    var k :| 0 <= k < |matches| && matches[k].candidate.target == t;
    assert Mentions(text, table, lower, matches[k].at, matches[k].candidate);
  }

  lemma RelayIsPositive(text: string, table: seq<Candidate>, lower: string -> string)
    requires AllNamed(table) && KeepsLength(lower) && PositiveAgents(table)
    ensures var agents := AgentIds(Mentioned(Backend, text, table, lower)); AllPositive(agents) && Distinct(agents)
  {
    var targets := Mentioned(Backend, text, table, lower);
    var _ := KeepsFirstOccurrences(TargetsOf(Scan(Backend, text, table, lower, 0)));
    DistinctAgentIds(targets);
    var agents := AgentIds(targets);
    forall i | 0 <= i < |agents|
      ensures agents[i] > 0
    {
      AgentIdsComeFromTargets(targets, agents[i]);
      MentionedAreInTable(text, table, lower, Agent(agents[i]));
    }
  }

  /** The first mention decides where a message goes: to an integration node, with no chain stored. */
  predicate GoesToNode(text: string, table: seq<Candidate>, lower: string -> string)
    requires AllNamed(table)
  {
    var targets := Mentioned(Backend, text, table, lower);
    targets != [] && targets[0].Node?
  }

  /** What a sent message leaves in `relay_agent_ids_json`. */
  function StoredFor(text: string, table: seq<Candidate>, lower: string -> string): Option<string>
    requires AllNamed(table)
  {
    if GoesToNode(text, table, lower) then None else Stored(RelayOf(text, table, lower))
  }

  lemma RelayIsReadBack(text: string, table: seq<Candidate>, lower: string -> string)
    requires AllNamed(table) && KeepsLength(lower) && PositiveAgents(table)
    ensures Read(Stored(RelayOf(text, table, lower))) == ChainOf(AgentIds(Mentioned(Backend, text, table, lower)))
  {
    RelayIsPositive(text, table, lower);
    var agents := AgentIds(Mentioned(Backend, text, table, lower));
    DistinctPrefix(agents);
    var relay := RelayOf(text, table, lower);
    PositiveKeepsAll(relay);
    DistinctPrefix(relay);
    RoundTrip(relay);
  }

  /** The chain previewed while typing, from the browser's table, is the chain that is read back once the message is
      sent and stored, from the backend's, if and only if it goes to a node and fewer than two agents are previewed, or
      it does not and both sides find the same chain. */
  lemma PreviewIsWhatIsStoredIff(text: string, backend: seq<Candidate>, browser: seq<Candidate>,
                                 lower: string -> string)
    requires AllNamed(backend) && AllNamed(browser) && KeepsLength(lower) && PositiveAgents(backend)
    ensures Read(StoredFor(text, backend, lower)) == Preview(text, browser, lower)
            <==> if GoesToNode(text, backend, lower) then |AgentIds(Mentioned(Frontend, text, browser, lower))| < 2
                 else ChainOf(AgentIds(Mentioned(Backend, text, backend, lower)))
                      == ChainOf(AgentIds(Mentioned(Frontend, text, browser, lower)))
  {
    RelayIsReadBack(text, backend, lower);
  }

  /** When for every name that the backend picks in the text the first to bear it in the browser's table is the target
      picked, that is: if and only if it is not the case that the first mention is a node and at least two agents are
      mentioned. */
  lemma PreviewOfListedNamesIff(text: string, backend: seq<Candidate>, browser: seq<Candidate>,
                                lower: string -> string)
    requires AllNamed(backend) && AllNamed(browser) && KeepsLength(lower) && PositiveAgents(backend)
    requires ListsNoMore(browser, backend) && AgentsFirst(browser)
    requires AllListed(text, Scan(Backend, text, backend, lower, 0), browser, lower)
    ensures Read(StoredFor(text, backend, lower)) == Preview(text, browser, lower)
            <==> !(GoesToNode(text, backend, lower) && |AgentIds(Mentioned(Backend, text, backend, lower))| >= 2)
  {
    PreviewIsWhatIsStoredIff(text, backend, browser, lower);
    ListedNamesMeanTheSame(text, backend, browser, lower);
  }

  /** On one table for both sides, ambiguous or not, the condition is the same. */
  lemma PreviewOnOneTableIff(text: string, table: seq<Candidate>, lower: string -> string)
    requires AllNamed(table) && AgentsFirst(table) && KeepsLength(lower) && PositiveAgents(table)
    ensures Read(StoredFor(text, table, lower)) == Preview(text, table, lower)
            <==> !(GoesToNode(text, table, lower) && |AgentIds(Mentioned(Backend, text, table, lower))| >= 2)
  {
    PreviewIsWhatIsStoredIff(text, table, table, lower);
    ScannersAgree(text, table, lower);
  }

  const NODE_FIRST := "@n @a @b"
  const NODE_FIRST_TABLE := [Candidate("a", Agent(1)), Candidate("b", Agent(2)), Candidate("n", Node(1))]

  /** The case occurs: a node and then two agents. */
  lemma NodeFirstIsPreviewedOnly(lower: string -> string)
    requires forall s :: lower(s) == s
    ensures AllNamed(NODE_FIRST_TABLE) && AgentsFirst(NODE_FIRST_TABLE)
    ensures StoredFor(NODE_FIRST, NODE_FIRST_TABLE, lower) == None
    ensures Preview(NODE_FIRST, NODE_FIRST_TABLE, lower) == [1, 2]
  {
    assert KeepsLength(lower);
    var matches := NodeFirstScan(NODE_FIRST, NODE_FIRST_TABLE, lower);
    ThreeTargets(Node(1), Agent(1), Agent(2), matches);
    ScannersAgree(NODE_FIRST, NODE_FIRST_TABLE, lower);
  }

  lemma NodeFirstScan(text: string, table: seq<Candidate>, lower: string -> string) returns (matches: seq<Match>)
    requires text == NODE_FIRST && table == NODE_FIRST_TABLE && forall s :: lower(s) == s
    ensures matches == [Match(0, table[2]), Match(3, table[0]), Match(6, table[1])]
    ensures AllNamed(table) && Scan(Backend, text, table, lower, 0) == matches
  {
    matches := [Match(0, table[2]), Match(3, table[0]), Match(6, table[1])];
    NodeHit(text, table, lower);
    AgentHit(text, table, lower);
    LastHit(text, table, lower);
  }

  lemma NodeHit(text: string, table: seq<Candidate>, lower: string -> string)
    requires text == NODE_FIRST && table == NODE_FIRST_TABLE && forall s :: lower(s) == s
    ensures AllNamed(table)
    ensures Scan(Backend, text, table, lower, 0) == [Match(0, table[2])] + Scan(Backend, text, table, lower, 3)
  {
    HitAt(text, 0, table, lower, 2, "n @a @b", 2);
    Quiet(text, 2, table, lower);
  }

  lemma AgentHit(text: string, table: seq<Candidate>, lower: string -> string)
    requires text == NODE_FIRST && table == NODE_FIRST_TABLE && forall s :: lower(s) == s
    ensures AllNamed(table)
    ensures Scan(Backend, text, table, lower, 3) == [Match(3, table[0])] + Scan(Backend, text, table, lower, 6)
  {
    HitAt(text, 3, table, lower, 0, "a @b", 5);
    Quiet(text, 5, table, lower);
  }

  lemma LastHit(text: string, table: seq<Candidate>, lower: string -> string)
    requires text == NODE_FIRST && table == NODE_FIRST_TABLE && forall s :: lower(s) == s
    ensures AllNamed(table)
    ensures Scan(Backend, text, table, lower, 6) == [Match(6, table[1])]
  {
    HitAt(text, 6, table, lower, 1, "b", 8);
    assert Scan(Backend, text, table, lower, 8) == [];
  }

  lemma Quiet(text: string, at: nat, table: seq<Candidate>, lower: string -> string)
    requires AllNamed(table) && at < |text| && !IsAt(text[at])
    ensures Scan(Backend, text, table, lower, at) == Scan(Backend, text, table, lower, at + 1)
  {
  }

  /** Where a mention may begin, the first candidate that fits is matched if no later one that fits beats it. */
  lemma FirstHitAt(text: string, at: nat, table: seq<Candidate>, lower: string -> string, k: nat, next: nat)
    requires AllNamed(table) && k < |table| && Opens(text, at) && Fits(Backend, text, at, table[k], lower)
    requires forall i :: 0 <= i < k ==> !Fits(Backend, text, at, table[i], lower)
    requires forall i :: k <= i < |table| && Fits(Backend, text, at, table[i], lower) ==>
               !Beats(table[i], table[k], lower)
    requires next == at + 1 + |lower(table[k].term)|
    ensures Scan(Backend, text, table, lower, at)
            == [Match(at, table[k])] + Scan(Backend, text, table, lower, next)
  {
    BestIsBest(text, at, table, lower, |table|);
  }

  /** So is the only one that fits. */
  lemma HitAt(text: string, at: nat, table: seq<Candidate>, lower: string -> string, k: nat, rest: string, next: nat)
    requires AllNamed(table) && k < |table| && Opens(text, at) && text[at + 1..] == rest
    requires forall i :: 0 <= i < |table| ==> (Fits(Backend, text, at, table[i], lower) <==> i == k)
    requires next == at + 1 + |lower(table[k].term)|
    ensures Scan(Backend, text, table, lower, at)
            == [Match(at, table[k])] + Scan(Backend, text, table, lower, next)
  {
    FirstHitAt(text, at, table, lower, k, next);
  }

  lemma NoHitAt(text: string, at: nat, table: seq<Candidate>, lower: string -> string)
    requires AllNamed(table) && at < |text|
    requires forall i :: 0 <= i < |table| ==> !Fits(Backend, text, at, table[i], lower)
    ensures Scan(Backend, text, table, lower, at) == Scan(Backend, text, table, lower, at + 1)
  {
    BestIsBest(text, at, table, lower, |table|);
  }

  lemma ThreeTargets(x: Target, y: Target, z: Target, matches: seq<Match>)
    requires x.Node? && y.Agent? && z.Agent? && y != z
    requires |matches| == 3 && matches[0].candidate.target == x
    requires matches[1].candidate.target == y && matches[2].candidate.target == z
    ensures var targets := FirstOccurrences(TargetsOf(matches));
            targets == [x, y, z] && AgentIds(targets) == [y.id, z.id]
  {
    assert TargetsOf(matches) == [x, y, z];
    DistinctStays([x, y, z]);
    ThreeAgentIds(x, y, z);
  }

  lemma ThreeAgentIds(x: Target, y: Target, z: Target)
    requires x.Node? && y.Agent? && z.Agent?
    ensures AgentIds([x, y, z]) == [y.id, z.id]
  {
    assert [x, y, z][..2] == [x, y] && [x, y][..1] == [x] && [x][..0] == [];
    assert AgentIds([]) == [] && AgentIds([x]) == [];
    assert AgentIds([x, y]) == AgentIds([x]) + [y.id];
  }

  predicate PositiveAgents(table: seq<Candidate>) {
    forall i :: 0 <= i < |table| && table[i].target.Agent? ==> table[i].target.id > 0
  }

  const BY_MODEL := "@m @b"
  const BROWSER_TABLE := [Candidate("a", Agent(1)), Candidate("b", Agent(2))]
  const BACKEND_TABLE := [Candidate("a", Agent(1)), Candidate("b", Agent(2)), Candidate("m", Agent(1))]

  /** What is read back when the first mention is an agent. */
  lemma StoredChain(text: string, table: seq<Candidate>, lower: string -> string, targets: seq<Target>)
    requires AllNamed(table) && KeepsLength(lower) && PositiveAgents(table)
    requires targets == Mentioned(Backend, text, table, lower) && targets != [] && targets[0].Agent?
    ensures Read(StoredFor(text, table, lower)) == ChainOf(AgentIds(targets))
  {
    RelayIsReadBack(text, table, lower);
  }

  lemma MentionedByModel(text: string, table: seq<Candidate>, lower: string -> string)
    requires text == BY_MODEL && table == BACKEND_TABLE && forall s :: lower(s) == s
    ensures AllNamed(table) && Mentioned(Backend, text, table, lower) == [Agent(1), Agent(2)]
    ensures AgentIds([Agent(1), Agent(2)]) == [1, 2]
  {
    var both := ByModelScan(text, table, lower);
    TwoTargets(Agent(1), Agent(2), both);
  }

  lemma StoredByModel(text: string, table: seq<Candidate>, lower: string -> string)
    requires text == BY_MODEL && table == BACKEND_TABLE && forall s :: lower(s) == s
    ensures AllNamed(table) && Read(StoredFor(text, table, lower)) == ChainOf([1, 2])
  {
    assert KeepsLength(lower);
    MentionedByModel(text, table, lower);
    StoredChain(text, table, lower, [Agent(1), Agent(2)]);
  }

  lemma PreviewedByName(text: string, table: seq<Candidate>, lower: string -> string)
    requires text == BY_MODEL && table == BROWSER_TABLE && forall s :: lower(s) == s
    ensures AllNamed(table) && Preview(text, table, lower) == ChainOf([2])
  {
    assert KeepsLength(lower);
    var one := ByNameScan(text, table, lower);
    ScannersAgree(text, table, lower);
    OneTarget(Agent(2), one);
  }

  /** The backend lists model names, the browser does not: an agent mentioned by its model and another by its name are
      stored as a chain, and nothing is previewed. */
  lemma ModelNameIsStoredOnly(lower: string -> string)
    requires forall s :: lower(s) == s
    ensures AllNamed(BACKEND_TABLE) && AllNamed(BROWSER_TABLE) && ListsNoMore(BROWSER_TABLE, BACKEND_TABLE)
    ensures Read(StoredFor(BY_MODEL, BACKEND_TABLE, lower)) == [1, 2]
    ensures Preview(BY_MODEL, BROWSER_TABLE, lower) == []
  {
    StoredByModel(BY_MODEL, BACKEND_TABLE, lower);
    PreviewedByName(BY_MODEL, BROWSER_TABLE, lower);
  }

  lemma ByModelScan(text: string, table: seq<Candidate>, lower: string -> string) returns (matches: seq<Match>)
    requires text == BY_MODEL && table == BACKEND_TABLE && forall s :: lower(s) == s
    ensures matches == [Match(0, table[2]), Match(3, table[1])]
    ensures AllNamed(table) && Scan(Backend, text, table, lower, 0) == matches
  {
    matches := [Match(0, table[2]), Match(3, table[1])];
    HitAt(text, 0, table, lower, 2, "m @b", 2);
    Quiet(text, 2, table, lower);
    NameHit(text, table, lower);
  }

  lemma NameHit(text: string, table: seq<Candidate>, lower: string -> string)
    requires text == BY_MODEL && (table == BACKEND_TABLE || table == BROWSER_TABLE) && forall s :: lower(s) == s
    ensures AllNamed(table) && Scan(Backend, text, table, lower, 3) == [Match(3, table[1])]
  {
    HitAt(text, 3, table, lower, 1, "b", 5);
    assert Scan(Backend, text, table, lower, 5) == [];
  }

  lemma ByNameScan(text: string, table: seq<Candidate>, lower: string -> string) returns (matches: seq<Match>)
    requires text == BY_MODEL && table == BROWSER_TABLE && forall s :: lower(s) == s
    ensures matches == [Match(3, table[1])]
    ensures AllNamed(table) && Scan(Backend, text, table, lower, 0) == matches
  {
    matches := [Match(3, table[1])];
    assert text[1..] == "m @b";
    NoHitAt(text, 0, table, lower);
    Quiet(text, 1, table, lower);
    Quiet(text, 2, table, lower);
    NameHit(text, table, lower);
  }

  const SHARED := "@t @b"

  /** Two agents share the name "t"; one side lists them by id, the other by name. */
  predicate IsShared(table: seq<Candidate>, x: int, y: int) {
    table == [Candidate("t", Agent(x)), Candidate("t", Agent(y)), Candidate("b", Agent(3))]
  }

  lemma SharedScan(text: string, table: seq<Candidate>, lower: string -> string, x: int, y: int)
    returns (matches: seq<Match>)
    requires text == SHARED && IsShared(table, x, y) && forall s :: lower(s) == s
    ensures matches == [Match(0, table[0]), Match(3, table[2])]
    ensures AllNamed(table) && Scan(Backend, text, table, lower, 0) == matches
  {
    matches := [Match(0, table[0]), Match(3, table[2])];
    assert text[1..] == "t @b";
    FirstHitAt(text, 0, table, lower, 0, 2);
    Quiet(text, 2, table, lower);
    SharedNameHit(text, table, lower, x, y);
  }

  lemma SharedNameHit(text: string, table: seq<Candidate>, lower: string -> string, x: int, y: int)
    requires text == SHARED && IsShared(table, x, y) && forall s :: lower(s) == s
    ensures AllNamed(table) && Scan(Backend, text, table, lower, 3) == [Match(3, table[2])]
  {
    HitAt(text, 3, table, lower, 2, "b", 5);
    assert Scan(Backend, text, table, lower, 5) == [];
  }

  lemma SharedMentioned(text: string, table: seq<Candidate>, lower: string -> string, x: int, y: int)
    requires text == SHARED && IsShared(table, x, y) && x != 3 && forall s :: lower(s) == s
    ensures AllNamed(table) && AgentsFirst(table) && KeepsLength(lower)
    ensures Mentioned(Backend, text, table, lower) == [Agent(x), Agent(3)]
    ensures AgentIds(Mentioned(Backend, text, table, lower)) == [x, 3]
  {
    var matches := SharedScan(text, table, lower, x, y);
    TwoTargets(Agent(x), Agent(3), matches);
  }

  lemma SharedChain(text: string, table: seq<Candidate>, lower: string -> string, x: int, y: int)
    requires text == SHARED && IsShared(table, x, y) && x > 0 && y > 0 && x != 3 && forall s :: lower(s) == s
    ensures AllNamed(table)
    ensures Read(StoredFor(text, table, lower)) == [x, 3] && Preview(text, table, lower) == [x, 3]
  {
    SharedMentioned(text, table, lower, x, y);
    assert ChainOf([x, 3]) == [x, 3];
    RelayIsReadBack(text, table, lower);
    ScannersAgree(text, table, lower);
  }

  lemma SharedListsNoMore(backend: seq<Candidate>, browser: seq<Candidate>, x: int, y: int)
    requires IsShared(backend, x, y) && IsShared(browser, y, x)
    ensures ListsNoMore(browser, backend)
  {
    assert browser == [backend[1], backend[0], backend[2]];
  }

  /** The same names in two orders: the backend stores the first by id, the browser previews the first by name. */
  lemma SharedNameDiffers(backend: seq<Candidate>, browser: seq<Candidate>, lower: string -> string)
    requires IsShared(backend, 1, 2) && IsShared(browser, 2, 1) && forall s :: lower(s) == s
    ensures AllNamed(backend) && AllNamed(browser) && ListsNoMore(browser, backend)
    ensures Read(StoredFor(SHARED, backend, lower)) == [1, 3] && Preview(SHARED, browser, lower) == [2, 3]
  {
    SharedListsNoMore(backend, browser, 1, 2);
    SharedChain(SHARED, backend, lower, 1, 2);
    SharedChain(SHARED, browser, lower, 2, 1);
  }

  lemma TwoTargets(x: Target, y: Target, matches: seq<Match>)
    requires x.Agent? && y.Agent? && x != y
    requires |matches| == 2 && matches[0].candidate.target == x && matches[1].candidate.target == y
    ensures var targets := FirstOccurrences(TargetsOf(matches));
            targets == [x, y] && AgentIds(targets) == [x.id, y.id]
  {
    var targets := TargetsOf(matches);
    assert targets == [x, y];
    DistinctStays(targets);
    assert targets[..1] == [x] && [x][..0] == [];
    assert AgentIds([]) == [] && AgentIds([x]) == [x.id];
  }

  lemma OneTarget(x: Target, matches: seq<Match>)
    requires x.Agent? && |matches| == 1 && matches[0].candidate.target == x
    ensures AgentIds(FirstOccurrences(TargetsOf(matches))) == [x.id]
  {
    var targets := TargetsOf(matches);
    assert targets == [x];
    DistinctStays(targets);
    assert [x][..0] == [] && AgentIds([]) == [];
  }
}
