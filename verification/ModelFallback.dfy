/** Model references, fallback chains, and the attempts of a chat completion along a chain.

    A reference is an alias with a configuration and perhaps a fallback, or names a provider and a model. The links of
    fallbacks from a start are a plain iteration, `Link`; the loop is compared with it. */
module ModelFallback {
  import opened Wrappers

  datatype Config = Config(provider: string, model: string, fallback: Option<string>)

  datatype Model = Model(reference: string, provider: string, name: string, fallback: Option<string>)

  datatype ConfigError = Required | UnknownAlias(reference: string) | Cycle(reference: string)

  type Configs = map<string, Config>

  /** Provider names: their normal form, and the prefix they give to model names. */
  datatype Providers = Providers(normalize: string -> string, prefix: string -> string)

  predicate HasSlash(s: string) {
    '/' in s
  }

  function UpToSlash(s: string): string {
    if s == "" || s[0] == '/' then "" else [s[0]] + UpToSlash(s[1..])
  }

  function ModelName(provider: string, model: string, p: Providers): string {
    if HasSlash(model) then model else p.prefix(provider) + "/" + model
  }

  function Resolve(reference: string, configs: Configs, p: Providers): Result<Model, ConfigError> {
    if reference in configs then
      var c := configs[reference];
      Success(Model(reference, p.normalize(c.provider), ModelName(c.provider, c.model, p), c.fallback))
    else if !HasSlash(reference) then Failure(UnknownAlias(reference))
    else Success(Model(reference, p.normalize(UpToSlash(reference)), reference, None))
  }

  lemma {:induction false} SlashSplits(s: string, i: nat)
    requires i < |s| && s[i] == '/' && '/' !in s[..i]
    ensures UpToSlash(s) == s[..i]
  {
    if i > 0 {
      assert s[0] == s[..i][0];
      assert s[1..][..i - 1] == s[..i][1..];
      SlashSplits(s[1..], i - 1);
      assert s[..i] == [s[0]] + s[1..][..i - 1];
    }
  }

  /** What a reference means: an alias its configuration, with the provider's prefix before a model name without a
      slash; any other name with a slash the provider before the first slash; and nothing else anything. */
  lemma ResolvesTo(reference: string, configs: Configs, p: Providers, i: nat)
    ensures var r := Resolve(reference, configs, p);
            if reference in configs then
              var c := configs[reference];
              && r.Success? && r.value.reference == reference && r.value.fallback == c.fallback
              && r.value.provider == p.normalize(c.provider)
              && r.value.name == if '/' in c.model then c.model else p.prefix(c.provider) + "/" + c.model
            else if '/' !in reference then r == Failure(UnknownAlias(reference))
            else i < |reference| && reference[i] == '/' && '/' !in reference[..i] ==>
                   r == Success(Model(reference, p.normalize(reference[..i]), reference, None))
  {
    if i < |reference| && reference[i] == '/' && '/' !in reference[..i] {
      SlashSplits(reference, i);
    }
  }

  // ---- The links of the configuration

  /** The reference reached after `k` fallback links; a reference that is no alias has none. */
  function Link(configs: Configs, start: string, k: nat): Option<string> {
    if k == 0 then Some(start)
    else
      var before := Link(configs, start, k - 1);
      if before.Some? && before.value in configs then configs[before.value].fallback else None
  }

  predicate Unresolvable(configs: Configs, reference: string) {
    reference !in configs && !HasSlash(reference)
  }

  /** The first `n` references of the links, all resolved. */
  ghost predicate IsPrefix(configs: Configs, start: string, p: Providers, chain: seq<Model>) {
    forall i :: 0 <= i < |chain| ==>
      && Link(configs, start, i) == Some(chain[i].reference)
      && Resolve(chain[i].reference, configs, p) == Success(chain[i])
  }

  ghost predicate DistinctReferences(chain: seq<Model>) {
    forall i, j :: 0 <= i < j < |chain| ==> chain[i].reference != chain[j].reference
  }

  ghost predicate IsChain(configs: Configs, start: string, p: Providers, chain: seq<Model>) {
    && chain != [] && IsPrefix(configs, start, p, chain) && DistinctReferences(chain)
    && Link(configs, start, |chain|).None?
  }

  ghost predicate Reaches(configs: Configs, start: string, reference: string) {
    exists k: nat :: Link(configs, start, k) == Some(reference)
  }

  /** The first reference the links come to a second time. */
  ghost predicate ReturnsFirstTo(configs: Configs, start: string, reference: string) {
    exists i: nat, j: nat ::
      && i < j && Link(configs, start, i) == Some(reference) && Link(configs, start, j) == Some(reference)
      && AllDifferent(configs, start, j)
  }

  /** The first `n` links are different references. */
  ghost predicate AllDifferent(configs: Configs, start: string, n: nat) {
    forall a: nat, b: nat :: a < b < n ==> Link(configs, start, a) != Link(configs, start, b)
  }

  /** The state of the loop: the chain so far and the reference to look at next. */
  ghost predicate Following(configs: Configs, start: string, p: Providers, chain: seq<Model>, next: Option<string>) {
    && IsPrefix(configs, start, p, chain) && DistinctReferences(chain)
    && Link(configs, start, |chain|) == next && (chain == [] ==> next.Some?)
  }

  ghost predicate IsSeen(chain: seq<Model>, seen: set<string>) {
    forall s :: s in seen <==> exists i :: 0 <= i < |chain| && chain[i].reference == s
  }

  lemma SeeOne(chain: seq<Model>, seen: set<string>, model: Model)
    requires IsSeen(chain, seen)
    ensures IsSeen(chain + [model], seen + {model.reference})
    ensures model.reference !in seen ==> forall i :: 0 <= i < |chain| ==> chain[i].reference != model.reference
  {
    var after := chain + [model];
    forall s
      ensures s in seen + {model.reference} <==> exists i :: 0 <= i < |after| && after[i].reference == s
    {
      if s == model.reference {
        assert after[|chain|].reference == s;
      } else if s in seen {
        var i :| 0 <= i < |chain| && chain[i].reference == s;
        assert after[i].reference == s;
      }
    }
  }

  lemma SeenAgain(configs: Configs, start: string, p: Providers, chain: seq<Model>, seen: set<string>,
                  reference: string)
    requires Following(configs, start, p, chain, Some(reference)) && IsSeen(chain, seen) && reference in seen
    ensures ReturnsFirstTo(configs, start, reference)
  {
    var i: nat :| i < |chain| && chain[i].reference == reference;
    assert Link(configs, start, i) == Some(reference) && Link(configs, start, |chain|) == Some(reference);
    assert AllDifferent(configs, start, |chain|);
  }

  /** How many aliases have not been seen, and one more for a reference that is no alias. */
  function Unseen(configs: Configs, seen: set<string>, next: Option<string>): nat {
    if next.None? then 0 else 1 + |configs.Keys - seen|
  }

  lemma SeenShrinks(configs: Configs, seen: set<string>, reference: string)
    requires reference !in seen && reference in configs
    ensures |configs.Keys - (seen + {reference})| < |configs.Keys - seen|
  {
    assert configs.Keys - (seen + {reference}) == (configs.Keys - seen) - {reference};
  }

  lemma ResolvedLink(configs: Configs, start: string, p: Providers, k: nat)
    requires Link(configs, start, k).Some? && Resolve(Link(configs, start, k).value, configs, p).Success?
    ensures Link(configs, start, k + 1) == Resolve(Link(configs, start, k).value, configs, p).value.fallback
  {
  }

  lemma FollowOne(configs: Configs, start: string, p: Providers, chain: seq<Model>, model: Model)
    requires Following(configs, start, p, chain, Some(model.reference))
    requires Resolve(model.reference, configs, p) == Success(model)
    requires forall i :: 0 <= i < |chain| ==> chain[i].reference != model.reference
    ensures Following(configs, start, p, chain + [model], model.fallback)
  {
    ResolvedLink(configs, start, p, |chain|);
  }

  /** What following the links from `start` comes to. */
  ghost predicate IsOutcome(configs: Configs, start: string, p: Providers, r: Result<seq<Model>, ConfigError>) {
    match r
    case Success(chain) => IsChain(configs, start, p, chain)
    case Failure(Cycle(reference)) => ReturnsFirstTo(configs, start, reference)
    case Failure(UnknownAlias(reference)) => Unresolvable(configs, reference) && Reaches(configs, start, reference)
    case Failure(Required) => false
  }

  /** The loop between two rounds: the references seen are those of the chain, and few are left to be seen. */
  ghost predicate Looping(configs: Configs, start: string, p: Providers, chain: seq<Model>, seen: set<string>,
                          next: Option<string>)
  {
    && Following(configs, start, p, chain, next) && IsSeen(chain, seen)
    && |chain| + Unseen(configs, seen, next) <= |configs| + 1
  }

  lemma RoundKeeps(configs: Configs, start: string, p: Providers, chain: seq<Model>, seen: set<string>, model: Model)
    requires Looping(configs, start, p, chain, seen, Some(model.reference)) && model.reference !in seen
    requires Resolve(model.reference, configs, p) == Success(model)
    ensures Looping(configs, start, p, chain + [model], seen + {model.reference}, model.fallback)
    ensures Unseen(configs, seen + {model.reference}, model.fallback) < Unseen(configs, seen, Some(model.reference))
  {
    SeeOne(chain, seen, model);
    FollowOne(configs, start, p, chain, model);
    if model.reference in configs {
      SeenShrinks(configs, seen, model.reference);
    }
  }

  lemma RoundFails(configs: Configs, start: string, p: Providers, chain: seq<Model>, reference: string)
    requires Following(configs, start, p, chain, Some(reference)) && Resolve(reference, configs, p).Failure?
    ensures IsOutcome(configs, start, p, Failure(Resolve(reference, configs, p).error))
  {
    assert Link(configs, start, |chain|) == Some(reference);
  }

  method FallbackChain(start: string, configs: Configs, p: Providers) returns (r: Result<seq<Model>, ConfigError>)
    ensures IsOutcome(configs, start, p, r)
    ensures r.Success? ==> |r.value| <= |configs| + 1
  {
    var chain: seq<Model> := [];
    var seen: set<string> := {};
    var reference := Some(start);
    while reference.Some?
      invariant Looping(configs, start, p, chain, seen, reference)
      decreases Unseen(configs, seen, reference)
    {
      if reference.value in seen {
        SeenAgain(configs, start, p, chain, seen, reference.value);
        return Failure(Cycle(reference.value));
      }
      var resolved := Resolve(reference.value, configs, p);
      if resolved.Failure? {
        RoundFails(configs, start, p, chain, reference.value);
        return Failure(resolved.error);
      }
      RoundKeeps(configs, start, p, chain, seen, resolved.value);
      seen := seen + {reference.value};
      chain := chain + [resolved.value];
      reference := resolved.value.fallback;
    }
    r := Success(chain);
  }

  // ---- The outcome is determined by the links

  /** Some reference is visited again. */
  ghost predicate Revisits(configs: Configs, start: string) {
    exists i: nat, j: nat ::
      i < j && Link(configs, start, j).Some? && Link(configs, start, i) == Link(configs, start, j)
  }

  /** The links lead to a name that is neither an alias nor a provider with a model. */
  ghost predicate GetsLost(configs: Configs, start: string) {
    exists s :: Reaches(configs, start, s) && Unresolvable(configs, s)
  }

  lemma {:induction false} NoLinkAfterNone(configs: Configs, start: string, k: nat, m: nat)
    requires k <= m && Link(configs, start, k).None?
    ensures Link(configs, start, m).None?
    decreases m
  {
    if k < m {
      NoLinkAfterNone(configs, start, k, m - 1);
    }
  }

  lemma {:induction false} LinksRepeat(configs: Configs, start: string, i: nat, j: nat, t: nat)
    requires Link(configs, start, i) == Link(configs, start, j)
    ensures Link(configs, start, i + t) == Link(configs, start, j + t)
  {
    if t > 0 {
      LinksRepeat(configs, start, i, j, t - 1);
    }
  }

  /** Links that return never end. */
  lemma {:induction false} ReturningNeverEnds(configs: Configs, start: string, i: nat, j: nat, k: nat)
    requires i < j && Link(configs, start, i) == Link(configs, start, j) && Link(configs, start, j).Some?
    ensures Link(configs, start, k).Some?
    decreases k
  {
    if k < j {
      if Link(configs, start, k).None? {
        NoLinkAfterNone(configs, start, k, j);
      }
    } else {
      LinksRepeat(configs, start, i, j, k - j);
      ReturningNeverEnds(configs, start, i, j, i + k - j);
    }
  }

  lemma RevisitingNeitherEndsNorGetsLost(configs: Configs, start: string, p: Providers, chain: seq<Model>, k: nat)
    requires Revisits(configs, start)
    ensures !IsChain(configs, start, p, chain)
    ensures Link(configs, start, k).Some? && !Unresolvable(configs, Link(configs, start, k).value)
  {
    var i: nat, j: nat :| i < j && Link(configs, start, j).Some? && Link(configs, start, i) == Link(configs, start, j);
    ReturningNeverEnds(configs, start, i, j, k);
    ReturningNeverEnds(configs, start, i, j, k + 1);
    ReturningNeverEnds(configs, start, i, j, |chain|);
  }

  lemma ChainsAreNotLost(configs: Configs, start: string, p: Providers, chain: seq<Model>, k: nat)
    requires IsChain(configs, start, p, chain) && Link(configs, start, k).Some?
    ensures !Unresolvable(configs, Link(configs, start, k).value)
  {
    if |chain| <= k {
      NoLinkAfterNone(configs, start, |chain|, k);
    }
  }

  /** A cycle is reported exactly when the links revisit a reference, an unknown alias exactly when they lead to one,
      and a chain is returned otherwise. */
  lemma CycleIffRevisits(configs: Configs, start: string, p: Providers, r: Result<seq<Model>, ConfigError>)
    requires IsOutcome(configs, start, p, r)
    ensures r.Failure? && r.error.Cycle? <==> Revisits(configs, start)
    ensures r.Failure? && r.error.UnknownAlias? <==> GetsLost(configs, start)
  {
    if Revisits(configs, start) {
      forall s
        ensures !(Reaches(configs, start, s) && Unresolvable(configs, s))
      {
        if Reaches(configs, start, s) {
          var k: nat :| Link(configs, start, k) == Some(s);
          RevisitingNeitherEndsNorGetsLost(configs, start, p, [], k);
        }
      }
      if r.Success? {
        RevisitingNeitherEndsNorGetsLost(configs, start, p, r.value, 0);
      }
    }
    if r.Success? && GetsLost(configs, start) {
      var s :| Reaches(configs, start, s) && Unresolvable(configs, s);
      var k: nat :| Link(configs, start, k) == Some(s);
      ChainsAreNotLost(configs, start, p, r.value, k);
    }
  }

  lemma ChainIsUnique(configs: Configs, start: string, p: Providers, a: seq<Model>, b: seq<Model>)
    requires IsChain(configs, start, p, a) && IsChain(configs, start, p, b)
    ensures a == b
  {
    assert Link(configs, start, |a|).None? && Link(configs, start, |b|).None?;
    forall i | 0 <= i < |a| && |a| == |b|
      ensures a[i] == b[i]
    {
      assert Link(configs, start, i) == Some(a[i].reference) && Link(configs, start, i) == Some(b[i].reference);
    }
  }

  // ---- Attempts along a chain

  datatype Attempt = Answered(content: string) | Failed(message: string)

  datatype AttemptFailure = AttemptFailure(provider: string, name: string, message: string)

  datatype Completion =
    | Reply(content: string, provider: string, name: string, requested: string, fallbackUsed: bool)
    | NotConfigured(error: ConfigError)
    | AllFailed(requested: string, failures: seq<AttemptFailure>)

  /** What a completion call finds: stored keys, keys of the environment, the providers that need one, and the provider
      calls themselves. */
  datatype World = World(p: Providers, stored: seq<(string, string)>, environment: map<string, string>,
                         needKey: set<string>, call: (Model, Option<string>) -> Attempt)

  /** The first stored key of the provider, else the one of the environment. */
  function KeyFor(provider: string, stored: seq<(string, string)>, w: World): Option<string> {
    if stored == [] then if provider in w.environment then Some(w.environment[provider]) else None
    else if w.p.normalize(stored[0].0) == provider then Some(stored[0].1)
    else KeyFor(provider, stored[1..], w)
  }

  /** One attempt; a provider that needs a key is not called without one. */
  function Try(m: Model, w: World): Attempt {
    var key := KeyFor(m.provider, w.stored, w);
    if m.provider in w.needKey && key.None?
    then Failed("API key is not configured for provider '" + m.provider + "'")
    else w.call(m, key)
  }

  /** The key used for a provider is the first stored one whose provider has its normal form; without one it is that of
      the environment, if there is any. */
  lemma {:induction false} KeyExactly(provider: string, stored: seq<(string, string)>, w: World, i: nat)
    ensures i < |stored| && w.p.normalize(stored[i].0) == provider
            && (forall j :: 0 <= j < i ==> w.p.normalize(stored[j].0) != provider) ==>
              KeyFor(provider, stored, w) == Some(stored[i].1)
    ensures (forall j :: 0 <= j < |stored| ==> w.p.normalize(stored[j].0) != provider) ==>
              KeyFor(provider, stored, w)
              == if provider in w.environment then Some(w.environment[provider]) else None
    decreases |stored|
  {
    if stored != [] && w.p.normalize(stored[0].0) != provider {
      assert forall j :: 0 <= j < |stored| - 1 ==> stored[1..][j] == stored[j + 1];
      KeyExactly(provider, stored[1..], w, if i > 0 then i - 1 else 0);
    }
  }

  /** An attempt is the provider's call with that key, except that without a key a provider that needs one is not called
      and the attempt fails, naming it. */
  lemma TriesWithKey(m: Model, w: World, key: Option<string>)
    requires key == KeyFor(m.provider, w.stored, w)
    ensures m.provider !in w.needKey || key.Some? ==> Try(m, w) == w.call(m, key)
    ensures m.provider in w.needKey && key.None? ==>
              Try(m, w) == Failed("API key is not configured for provider '" + m.provider + "'")
  {
  }

  predicate Records(m: Model, w: World, f: AttemptFailure) {
    var attempt := Try(m, w);
    attempt.Failed? && f == AttemptFailure(m.provider, m.name, attempt.message)
  }

  /** The failures are those of the models before the first that answers, and its answer is the reply; without any
      answer every model is among the failures. */
  ghost predicate IsFirstSuccess(chain: seq<Model>, requested: string, w: World, c: Completion,
                                 failures: seq<AttemptFailure>)
  {
    && |failures| <= |chain|
    && (forall i :: 0 <= i < |failures| ==> Records(chain[i], w, failures[i]))
    && if |failures| == |chain| then c == AllFailed(requested, failures)
       else
         var m := chain[|failures|];
         Try(m, w).Answered? && c == Reply(Try(m, w).content, m.provider, m.name, requested, |failures| > 0)
  }

  method Attempts(chain: seq<Model>, requested: string, w: World)
    returns (c: Completion, failures: seq<AttemptFailure>)
    ensures IsFirstSuccess(chain, requested, w, c, failures)
  {
    failures := [];
    for i := 0 to |chain|
      invariant |failures| == i && forall j :: 0 <= j < i ==> Records(chain[j], w, failures[j])
    {
      var m := chain[i];
      match Try(m, w)
      case Answered(content) => return Reply(content, m.provider, m.name, requested, i > 0), failures;
      case Failed(message) => failures := failures + [AttemptFailure(m.provider, m.name, message)];
    }
    c := AllFailed(requested, failures);
  }

  /** Custom models add aliases and never replace a configured one. */
  function Merged(configs: Configs, custom: Configs): Configs {
    custom + configs
  }

  /** A custom model is found under its alias only if no configured one has it. */
  lemma MergedFinds(configs: Configs, custom: Configs, alias: string)
    ensures alias in Merged(configs, custom) <==> alias in configs || alias in custom
    ensures alias in configs ==> Merged(configs, custom)[alias] == configs[alias]
    ensures alias in custom && alias !in configs ==> Merged(configs, custom)[alias] == custom[alias]
  {
  }

  method ChatCompletion(modelName: string, configs: Configs, custom: Configs, trim: string -> string, w: World)
    returns (c: Completion, failures: seq<AttemptFailure>, resolved: Result<seq<Model>, ConfigError>)
    ensures trim(modelName) == "" ==> c == NotConfigured(Required) && failures == []
    ensures trim(modelName) != "" ==>
              && IsOutcome(Merged(configs, custom), trim(modelName), w.p, resolved)
              && (resolved.Failure? ==> c == NotConfigured(resolved.error) && failures == [])
              && (resolved.Success? ==> IsFirstSuccess(resolved.value, trim(modelName), w, c, failures))
  {
    var requested := trim(modelName);
    if requested == "" {
      return NotConfigured(Required), [], Failure(Required);
    }
    resolved := FallbackChain(requested, Merged(configs, custom), w.p);
    match resolved
    case Failure(error) => c, failures := NotConfigured(error), [];
    case Success(chain) => c, failures := Attempts(chain, requested, w);
  }

  /** The completion is determined: no other reply and no other list of failures meets the description. */
  lemma FirstSuccessIsUnique(chain: seq<Model>, requested: string, w: World, c: Completion, fs: seq<AttemptFailure>,
                             c': Completion, fs': seq<AttemptFailure>)
    requires IsFirstSuccess(chain, requested, w, c, fs) && IsFirstSuccess(chain, requested, w, c', fs')
    ensures c == c' && fs == fs'
  {
    assert forall i :: 0 <= i < |fs| ==> Try(chain[i], w).Failed?;
    assert forall i :: 0 <= i < |fs'| ==> Try(chain[i], w).Failed?;
    forall i | 0 <= i < |fs| && |fs| == |fs'|
      ensures fs[i] == fs'[i]
    {
      assert Records(chain[i], w, fs[i]) && Records(chain[i], w, fs'[i]);
    }
  }
}
