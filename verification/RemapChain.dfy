/**
  Recognising a single chain of remap transforms, and rewiring it for the runner
  (vector-vrl/src/vector_vrl/vector_test_utils.py:13-55, 181-211).
 */
module RemapChain {
  import opened Wrappers
  import opened PythonValues

  datatype ChainError =
    | NoTransforms
    | NotARemap(name: string)
    | NoInlineSource(name: string)
    | NotIterable  // Python's TypeError from reading `inputs`
    | NotOneChain

  type Upstreams = map<string, seq<string>>

  // ---------------------------------------------------------------------------
  // Reading the transforms
  // ---------------------------------------------------------------------------

  /** What is wrong with one transform on its own. */
  function TransformProblem(name: string, transform: Py): Option<ChainError> {
    if !transform.PyDict? || Get(transform.entries, "type") != Some(PyStr("remap")) then Some(NotARemap(name))
    else match Get(transform.entries, "source")
      case Some(PyStr(_)) => None
      case _ => Some(NoInlineSource(name))
  }

  function FirstProblem(transforms: Dict): Option<ChainError> {
    if transforms == [] then None
    else match TransformProblem(transforms[0].0, transforms[0].1)
      case Some(problem) => Some(problem)
      case None => FirstProblem(transforms[1..])
  }

  predicate Hashable(v: Py) {
    !v.PyList? && !v.PyDict?
  }

  function KnownNames(candidates: seq<string>, names: seq<string>): seq<string> {
    if candidates == [] then []
    else (if candidates[0] in names then [candidates[0]] else []) + KnownNames(candidates[1..], names)
  }

  function Strings(items: seq<Py>): seq<string> {
    if items == [] then []
    else (if items[0].PyStr? then [items[0].s] else []) + Strings(items[1..])
  }

  /** The inputs of a transform that are transforms too; an absent or empty value has none. */
  function InputsWithin(transform: Dict, names: seq<string>): Result<seq<string>, ChainError> {
    match Get(transform, "inputs")
    case None => Ok([])
    case Some(inputs) =>
      if !Truthy(inputs) then Ok([])
      else match inputs
        case PyList(items) =>
          if forall item <- items :: Hashable(item) then Ok(KnownNames(Strings(items), names)) else Err(NotIterable)
        case PyDict(entries) => Ok(KnownNames(KeysOf(entries), names))
        case PyStr(s) => Ok(KnownNames(Characters(s), names))
        case _ => Err(NotIterable)
  }

  /** The upstream of every transform, or the error reading one of them raises. */
  function ReadUpstreams(transforms: Dict, names: seq<string>): Result<Upstreams, ChainError> {
    if transforms == [] then Ok(map[])
    else if !transforms[0].1.PyDict? then Err(NotARemap(transforms[0].0))
    else match InputsWithin(transforms[0].1.entries, names)
      case Err(e) => Err(e)
      case Ok(before) =>
        match ReadUpstreams(transforms[1..], names)
        case Err(e) => Err(e)
        case Ok(rest) => Ok(rest[transforms[0].0 := before])
  }

  // What the readings are.

  ghost predicate IsRemap(transform: Py) {
    transform.PyDict? && Get(transform.entries, "type") == Some(PyStr("remap"))
  }

  ghost predicate HasText(transform: Py) {
    transform.PyDict? && exists s :: Get(transform.entries, "source") == Some(PyStr(s))
  }

  /** What is wrong with an entry, if anything: no remap, or a remap without text for a source. */
  ghost predicate ProblemOf(entry: (string, Py), problem: Option<ChainError>) {
    problem == if !IsRemap(entry.1) then Some(NotARemap(entry.0))
               else if !HasText(entry.1) then Some(NoInlineSource(entry.0))
               else None
  }

  lemma TransformProblemExactly(entry: (string, Py))
    ensures ProblemOf(entry, TransformProblem(entry.0, entry.1))
  {
  }

  /** The first entry with a problem has the problem reported. */
  lemma {:induction false} FirstProblemExactly(transforms: Dict) returns (i: nat)
    ensures i <= |transforms| && forall k :: 0 <= k < i ==> ProblemOf(transforms[k], None)
    ensures if i < |transforms|
            then FirstProblem(transforms).Some? && ProblemOf(transforms[i], FirstProblem(transforms))
            else FirstProblem(transforms).None?
  {
    if transforms == [] {
      i := 0;
    } else {
      TransformProblemExactly(transforms[0]);
      if TransformProblem(transforms[0].0, transforms[0].1).Some? {
        i := 0;
      } else {
        var rest := transforms[1..];
        var n := FirstProblemExactly(rest);
        i := n + 1;
        assert forall k :: 1 <= k < i ==> transforms[k] == rest[k - 1];
      }
    }
  }

  lemma {:induction false} KnownNamesCount(a: seq<string>, names: seq<string>, x: string)
    ensures multiset(KnownNames(a, names))[x] == if x in names then multiset(a)[x] else 0
  {
    if a != [] {
      var first, rest := a[0], a[1..];
      assert a == [first] + rest;
      assert multiset(a) == multiset{first} + multiset(rest);
      KnownNamesCount(rest, names, x);
      var head := if first in names then [first] else [];
      assert multiset(KnownNames(a, names)) == multiset(head) + multiset(KnownNames(rest, names));
    }
  }

  lemma {:induction false} KnownNamesConcat(a: seq<string>, b: seq<string>, names: seq<string>)
    ensures KnownNames(a + b, names) == KnownNames(a, names) + KnownNames(b, names)
  {
    if a == [] {
      assert a + b == b;
    } else {
      assert (a + b)[1..] == a[1..] + b;
      KnownNamesConcat(a[1..], b, names);
      var head := if a[0] in names then [a[0]] else [];
      assert KnownNames(a + b, names) == head + (KnownNames(a[1..], names) + KnownNames(b, names));
    }
  }

  lemma {:induction false} StringsCount(a: seq<Py>, x: string)
    ensures multiset(Strings(a))[x] == multiset(a)[PyStr(x)]
  {
    if a != [] {
      var first, rest := a[0], a[1..];
      assert a == [first] + rest;
      assert multiset(a) == multiset{first} + multiset(rest);
      StringsCount(rest, x);
      var head := if first.PyStr? then [first.s] else [];
      assert Strings(a) == head + Strings(rest);
      assert multiset(Strings(a)) == multiset(head) + multiset(Strings(rest));
    }
  }

  lemma {:induction false} StringsConcat(a: seq<Py>, b: seq<Py>)
    ensures Strings(a + b) == Strings(a) + Strings(b)
  {
    if a == [] {
      assert a + b == b;
    } else {
      assert (a + b)[1..] == a[1..] + b;
      StringsConcat(a[1..], b);
    }
  }

  /** The upstream read off a list holds each known name as often as the list does, and nothing else. */
  lemma ListInputsExactly(transform: Dict, items: seq<Py>, names: seq<string>, x: string)
    requires Get(transform, "inputs") == Some(PyList(items))
    ensures InputsWithin(transform, names).Ok? <==> forall item <- items :: !item.PyList? && !item.PyDict?
    ensures InputsWithin(transform, names).Ok? ==>
              multiset(InputsWithin(transform, names).value)[x] == if x in names then multiset(items)[PyStr(x)] else 0
    ensures InputsWithin(transform, names).Err? ==> InputsWithin(transform, names).error == NotIterable
  {
    StringsCount(items, x);
    KnownNamesCount(Strings(items), names, x);
    if forall item <- items :: Hashable(item) {
      ListInputs(transform, items, names);
    } else {
      UnhashableInputs(transform, items, names);
    }
  }

  lemma UnhashableInputs(transform: Dict, items: seq<Py>, names: seq<string>)
    requires Get(transform, "inputs") == Some(PyList(items)) && exists item <- items :: !Hashable(item)
    ensures InputsWithin(transform, names) == Err(NotIterable)
  {
  }

  /** And in the list's order: the upstream of a list is that of its front followed by that of its end. */
  lemma ListInputsKeepOrder(transform: Dict, a: seq<Py>, b: seq<Py>, names: seq<string>)
    requires Get(transform, "inputs") == Some(PyList(a + b)) && InputsWithin(transform, names).Ok?
    ensures InputsWithin([("inputs", PyList(a))], names).Ok? && InputsWithin([("inputs", PyList(b))], names).Ok?
    ensures InputsWithin(transform, names).value ==
            InputsWithin([("inputs", PyList(a))], names).value + InputsWithin([("inputs", PyList(b))], names).value
  {
    assert forall item <- a :: item in a + b;
    assert forall item <- b :: item in a + b;
    ListInputs(transform, a + b, names);
    ListInputs([("inputs", PyList(a))], a, names);
    ListInputs([("inputs", PyList(b))], b, names);
    StringsConcat(a, b);
    KnownNamesConcat(Strings(a), Strings(b), names);
  }

  lemma ListInputs(transform: Dict, items: seq<Py>, names: seq<string>)
    requires Get(transform, "inputs") == Some(PyList(items)) && forall item <- items :: Hashable(item)
    ensures InputsWithin(transform, names) == Ok(KnownNames(Strings(items), names))
  {
  }

  /** What else `inputs` can be: nothing, a mapping read by its keys, text read by its characters, or an error. */
  lemma OtherInputsExactly(transform: Dict, names: seq<string>, x: string)
    ensures Get(transform, "inputs") == None ==> InputsWithin(transform, names) == Ok([])
    ensures Get(transform, "inputs") in {Some(PyNone), Some(PyBool(false)), Some(PyInt(0)), Some(PyFloat(0.0))} ==>
              InputsWithin(transform, names) == Ok([])
    ensures match Get(transform, "inputs")
            case Some(PyDict(entries)) =>
              && InputsWithin(transform, names).Ok?
              && multiset(InputsWithin(transform, names).value)[x]
                 == if x in names then multiset(KeysOf(entries))[x] else 0
            case Some(PyStr(s)) =>
              && InputsWithin(transform, names).Ok?
              && multiset(InputsWithin(transform, names).value)[x]
                 == if x in names && |x| == 1 then multiset(s)[x[0]] else 0
            case Some(PyBool(true)) => InputsWithin(transform, names) == Err(NotIterable)
            case Some(PyInt(i)) => i != 0 ==> InputsWithin(transform, names) == Err(NotIterable)
            case Some(PyFloat(r)) => r != 0.0 ==> InputsWithin(transform, names) == Err(NotIterable)
            case _ => true
  {
    match Get(transform, "inputs")
    case Some(PyDict(entries)) => KnownNamesCount(KeysOf(entries), names, x);
    case Some(PyStr(s)) =>
      KnownNamesCount(Characters(s), names, x);
      CharactersCount(s, x);
    case _ =>
  }

  function Characters(s: string): seq<string> {
    seq(|s|, i requires 0 <= i < |s| => [s[i]])
  }

  lemma {:induction false} CharactersCount(s: string, x: string)
    ensures multiset(Characters(s))[x] == if |x| == 1 then multiset(s)[x[0]] else 0
  {
    if s != [] {
      assert s == [s[0]] + s[1..] && Characters(s) == [[s[0]]] + Characters(s[1..]);
      assert |x| == 1 ==> x == [x[0]];
      CharactersCount(s[1..], x);
    }
  }

  /** With every transform a mapping, each name's upstream is read off that transform's own inputs. */
  lemma {:induction false} UpstreamsExactly(transforms: Dict, names: seq<string>)
    requires AllDicts(transforms) && Distinct(KeysOf(transforms))
    ensures var r := ReadUpstreams(transforms, names);
            && (r.Ok? <==> forall i :: 0 <= i < |transforms| ==> InputsWithin(transforms[i].1.entries, names).Ok?)
            && (r.Ok? ==> forall i :: 0 <= i < |transforms| ==>
                  && transforms[i].0 in r.value
                  && InputsWithin(transforms[i].1.entries, names) == Ok(r.value[transforms[i].0]))
  {
    if transforms != [] {
      var rest := transforms[1..];
      assert forall i :: 0 <= i < |rest| ==> rest[i] == transforms[i + 1];
      assert forall i :: 0 <= i < |rest| ==> KeysOf(rest)[i] == KeysOf(transforms)[i + 1];
      UpstreamsExactly(rest, names);
      forall i | 0 < i < |transforms| ensures transforms[i].0 != transforms[0].0 && transforms[i] == rest[i - 1] {
        assert KeysOf(transforms)[i] != KeysOf(transforms)[0];
      }
    }
  }

  // ---------------------------------------------------------------------------
  // Chains
  // ---------------------------------------------------------------------------

  /** A walk from a transform without upstream, each next one reading just the one before. */
  ghost predicate PartialChain(upstream: Upstreams, order: seq<string>) {
    && order != []
    && Distinct(order)
    && (forall name <- order :: name in upstream)
    && upstream[order[0]] == []
    && (forall k :: 0 < k < |order| ==> upstream[order[k]] == [order[k - 1]])
  }

  /** An ordering of all the transforms: the first reads none of them, each later one just its predecessor. */
  ghost predicate IsChain(upstream: Upstreams, order: seq<string>) {
    PartialChain(upstream, order) && forall name <- upstream :: name in order
  }

  lemma Successor(upstream: Upstreams, walk: seq<string>, k: nat, i: nat)
    requires PartialChain(upstream, walk) && k < |walk| && i < |walk|
    requires walk[i] in upstream && walk[k] in upstream[walk[i]]
    ensures i == k + 1
  {
    assert i > 0 ==> upstream[walk[i]] == [walk[i - 1]];
    assert walk[i - 1] == walk[k];
  }

  lemma LaterOnesRead(upstream: Upstreams, walk: seq<string>)
    requires PartialChain(upstream, walk)
    ensures forall i :: 0 < i < |walk| ==> walk[i] in upstream && |upstream[walk[i]]| == 1
  {
    forall i | 0 < i < |walk| ensures walk[i] in upstream && |upstream[walk[i]]| == 1 {
      assert upstream[walk[i]] == [walk[i - 1]];
    }
  }

  lemma {:induction false} WalkFollowsChain(upstream: Upstreams, walk: seq<string>, chain: seq<string>)
    requires PartialChain(upstream, walk) && IsChain(upstream, chain)
    ensures walk <= chain
  {
    var n := |walk| - 1;
    assert walk[n] in walk && walk[n] in upstream;
    var k :| 0 <= k < |chain| && chain[k] == walk[n];
    if n == 0 {
      LaterOnesRead(upstream, chain);
    } else {
      assert forall name <- walk[..n] :: name in walk;
      WalkFollowsChain(upstream, walk[..n], chain);
      assert walk[..n][n - 1] == walk[n - 1] == chain[n - 1];
      assert chain[n - 1] in upstream[chain[k]];
      Successor(upstream, chain, n - 1, k);
    }
    assert k == n;
    assert walk == walk[..n] + [walk[n]];
  }

  /** There is at most one chain. */
  lemma ChainIsUnique(upstream: Upstreams, a: seq<string>, b: seq<string>)
    requires IsChain(upstream, a) && IsChain(upstream, b)
    ensures a == b
  {
    WalkFollowsChain(upstream, a, b);
    WalkFollowsChain(upstream, b, a);
  }

  /** A walk that takes one more step cannot come back to where it has been. */
  lemma WalkNeverRevisits(upstream: Upstreams, order: seq<string>, next: string)
    requires PartialChain(upstream, order) && next in upstream
    requires upstream[next] == [order[|order| - 1]]
    ensures next !in order && PartialChain(upstream, order + [next])
  {
    forall k | 0 <= k < |order| ensures order[k] != next {
      assert k > 0 ==> order[k - 1] != order[|order| - 1];
      assert k > 0 ==> upstream[order[k]] == [order[k - 1]];
    }
  }

  lemma {:induction false} DistinctFitsIn(xs: seq<string>, s: set<string>)
    requires Distinct(xs) && forall x <- xs :: x in s
    ensures |xs| <= |s|
    ensures |xs| == |s| ==> forall x <- s :: x in xs
  {
    if xs != [] {
      var n := |xs| - 1;
      forall x <- xs[..n] ensures x in s - {xs[n]} {
        assert x in xs;
      }
      DistinctFitsIn(xs[..n], s - {xs[n]});
      assert xs == xs[..n] + [xs[n]];
      forall x <- s ensures |xs| == |s| ==> x in xs {
        assert x == xs[n] || x in s - {xs[n]};
      }
    }
  }

  // The comprehensions over the transform names.

  function Heads(names: seq<string>, upstream: Upstreams): seq<string>
    requires forall name <- names :: name in upstream
  {
    if names == [] then []
    else
      assert names[0] in names && forall name <- names[1..] :: name in names;
      (if upstream[names[0]] == [] then [names[0]] else []) + Heads(names[1..], upstream)
  }

  function Following(names: seq<string>, upstream: Upstreams, before: string): seq<string>
    requires forall name <- names :: name in upstream
  {
    if names == [] then []
    else
      assert names[0] in names && forall name <- names[1..] :: name in names;
      (if before in upstream[names[0]] then [names[0]] else []) + Following(names[1..], upstream, before)
  }

  lemma {:induction false} HeadsMembers(names: seq<string>, upstream: Upstreams)
    requires forall name <- names :: name in upstream
    ensures forall n :: n in Heads(names, upstream) <==> n in names && upstream[n] == []
    ensures Distinct(names) ==> Distinct(Heads(names, upstream))
  {
    if names != [] {
      assert names[0] in names && forall name <- names[1..] :: name in names;
      assert names == [names[0]] + names[1..];
      HeadsMembers(names[1..], upstream);
    }
  }

  lemma {:induction false} FollowingMembers(names: seq<string>, upstream: Upstreams, before: string)
    requires forall name <- names :: name in upstream
    ensures forall n :: n in Following(names, upstream, before) <==> n in names && before in upstream[n]
    ensures Distinct(names) ==> Distinct(Following(names, upstream, before))
  {
    if names != [] {
      assert names[0] in names && forall name <- names[1..] :: name in names;
      assert names == [names[0]] + names[1..];
      FollowingMembers(names[1..], upstream, before);
    }
  }

  lemma AtMostOne(xs: seq<string>, only: string)
    requires Distinct(xs) && forall x <- xs :: x == only
    ensures |xs| <= 1
  {
    DistinctFitsIn(xs, {only});
  }

  lemma ChainHasOneHead(names: seq<string>, upstream: Upstreams, chain: seq<string>)
    requires Distinct(names) && (forall n :: n in names <==> n in upstream) && IsChain(upstream, chain)
    ensures Heads(names, upstream) == [chain[0]]
  {
    HeadsMembers(names, upstream);
    LaterOnesRead(upstream, chain);
    var heads := Heads(names, upstream);
    assert chain[0] in heads;
    forall x <- heads ensures x == chain[0] {
      var k :| 0 <= k < |chain| && chain[k] == x;
    }
    AtMostOne(heads, chain[0]);
  }

  lemma ChainDoesNotBranch(names: seq<string>, upstream: Upstreams, chain: seq<string>, k: nat)
    requires Distinct(names) && (forall n :: n in names <==> n in upstream) && IsChain(upstream, chain)
    requires k < |chain|
    ensures |upstream[chain[k]]| <= 1
    ensures |Following(names, upstream, chain[k])| <= 1
    ensures k < |chain| - 1 ==> Following(names, upstream, chain[k]) != []
  {
    LaterOnesRead(upstream, chain);
    FollowingMembers(names, upstream, chain[k]);
    var after := Following(names, upstream, chain[k]);
    forall x <- after, y <- after ensures x == y {
      var i :| 0 <= i < |chain| && chain[i] == x;
      var j :| 0 <= j < |chain| && chain[j] == y;
      Successor(upstream, chain, k, i);
      Successor(upstream, chain, k, j);
    }
    if after != [] {
      assert after[0] in after;
      AtMostOne(after, after[0]);
    }
    if k < |chain| - 1 {
      assert upstream[chain[k + 1]] == [chain[k]];
      assert chain[k + 1] in after;
    }
  }

  /** A chain has one head, and branches nowhere. */
  lemma ChainShape(names: seq<string>, upstream: Upstreams, chain: seq<string>)
    requires Distinct(names) && (forall n :: n in names <==> n in upstream) && IsChain(upstream, chain)
    ensures Heads(names, upstream) == [chain[0]]
    ensures forall n <- names :: |upstream[n]| <= 1 && |Following(names, upstream, n)| <= 1
    ensures forall k :: 0 <= k < |chain| - 1 ==> Following(names, upstream, chain[k]) != []
  {
    ChainHasOneHead(names, upstream, chain);
    forall n <- names ensures |upstream[n]| <= 1 && |Following(names, upstream, n)| <= 1 {
      var k :| 0 <= k < |chain| && chain[k] == n;
      ChainDoesNotBranch(names, upstream, chain, k);
    }
    forall k | 0 <= k < |chain| - 1 ensures Following(names, upstream, chain[k]) != [] {
      ChainDoesNotBranch(names, upstream, chain, k);
    }
  }

  /**
    The recogniser's checks and its walk: it finds an ordering exactly when the transforms
    form a chain, and then that one.
   */
  method OrderTransforms(names: seq<string>, upstream: Upstreams) returns (r: Option<seq<string>>)
    requires names != [] && Distinct(names) && forall n :: n in names <==> n in upstream
    ensures r.Some? <==> exists chain :: IsChain(upstream, chain)
    ensures r.Some? ==> IsChain(upstream, r.value)
  {
    var heads := Heads(names, upstream);
    var following := map name | name in names :: Following(names, upstream, name);
    forall chain | IsChain(upstream, chain)
      ensures |heads| == 1
      ensures forall n <- names :: |upstream[n]| <= 1 && |following[n]| <= 1
    {
      ChainShape(names, upstream, chain);
    }
    if |heads| != 1 || (exists n <- names :: |upstream[n]| > 1) || (exists n <- names :: |following[n]| > 1) {
      return None;
    }
    HeadsMembers(names, upstream);
    assert heads[0] in heads;
    var order := [heads[0]];
    while following[order[|order| - 1]] != []
      invariant PartialChain(upstream, order)
      invariant order[|order| - 1] in names
      decreases |upstream| - |order|
    {
      var last := order[|order| - 1];
      WalkSteps(names, upstream, order);
      order := order + [following[last][0]];
    }
    WalkIsWhole(names, upstream, order);
    if |order| != |names| {
      return None;
    }
    return Some(order);
  }

  lemma WalkSteps(names: seq<string>, upstream: Upstreams, order: seq<string>)
    requires forall n :: n in names <==> n in upstream
    requires PartialChain(upstream, order) && Following(names, upstream, order[|order| - 1]) != []
    requires forall n <- names :: |upstream[n]| <= 1
    ensures var next := Following(names, upstream, order[|order| - 1])[0];
            next in names && next !in order && PartialChain(upstream, order + [next]) && |order| < |upstream|
  {
    var last := order[|order| - 1];
    var next := Following(names, upstream, last)[0];
    FollowingMembers(names, upstream, last);
    assert next in Following(names, upstream, last);
    assert upstream[next] == [last];
    WalkNeverRevisits(upstream, order, next);
    DistinctFitsIn(order + [next], upstream.Keys);
  }

  /** A walk that can go no further is the chain, if there is one; and is one if it has every name. */
  lemma WalkIsWhole(names: seq<string>, upstream: Upstreams, order: seq<string>)
    requires Distinct(names) && forall n :: n in names <==> n in upstream
    requires PartialChain(upstream, order) && order[|order| - 1] in names
    requires Following(names, upstream, order[|order| - 1]) == []
    ensures |order| == |names| <==> exists chain :: IsChain(upstream, chain)
    ensures |order| == |names| ==> IsChain(upstream, order)
  {
    NamesCount(names, upstream);
    DistinctFitsIn(order, upstream.Keys);
    if |order| == |names| {
      assert IsChain(upstream, order);
    }
    if chain :| IsChain(upstream, chain) {
      StuckWalkIsChain(names, upstream, order, chain);
      forall n ensures n in order <==> n in upstream {
      }
      NamesCount(order, upstream);
    }
  }

  lemma StuckWalkIsChain(names: seq<string>, upstream: Upstreams, order: seq<string>, chain: seq<string>)
    requires Distinct(names) && forall n :: n in names <==> n in upstream
    requires PartialChain(upstream, order) && order[|order| - 1] in names
    requires Following(names, upstream, order[|order| - 1]) == []
    requires IsChain(upstream, chain)
    ensures order == chain
  {
    WalkFollowsChain(upstream, order, chain);
    ChainShape(names, upstream, chain);
    var n := |order| - 1;
    assert order[n] == chain[n];
  }

  lemma {:induction false} NamesCount(names: seq<string>, upstream: Upstreams)
    requires Distinct(names) && forall n :: n in names <==> n in upstream
    ensures |names| == |upstream.Keys|
  {
    if names == [] {
      assert upstream.Keys == {};
    } else {
      var n := |names| - 1;
      assert names == names[..n] + [names[n]];
      var smaller := map name | name in upstream && name != names[n] :: upstream[name];
      forall name ensures name in names[..n] <==> name in smaller {
        if name in names[..n] {
          assert name in names;
        }
      }
      NamesCount(names[..n], smaller);
      assert upstream.Keys == smaller.Keys + {names[n]};
    }
  }

  // ---------------------------------------------------------------------------
  // The recogniser
  // ---------------------------------------------------------------------------

  /** The transforms are inline remaps whose inputs can be read and which `order` chains. */
  ghost predicate Accepts(transforms: Dict, order: seq<string>) {
    && transforms != []
    && FirstProblem(transforms).None?
    && ReadUpstreams(transforms, KeysOf(transforms)).Ok?
    && IsChain(ReadUpstreams(transforms, KeysOf(transforms)).value, order)
  }

  /**
    In an accepted order a transform with a list for its inputs names none of the transforms
    there if it is the first, and else just the one before it, once.
   */
  lemma AcceptedReadsOnlyThePrevious(transforms: Dict, order: seq<string>, i: nat, k: nat, items: seq<Py>, x: string)
    requires Distinct(KeysOf(transforms)) && Accepts(transforms, order)
    requires i < |transforms| && k < |order| && order[k] == transforms[i].0 && x in KeysOf(transforms)
    requires transforms[i].1.PyDict? && Get(transforms[i].1.entries, "inputs") == Some(PyList(items))
    ensures multiset(items)[PyStr(x)] == if k > 0 && x == order[k - 1] then 1 else 0
  {
    ProblemFree(transforms);
    var names := KeysOf(transforms);
    UpstreamsExactly(transforms, names);
    var upstream := ReadUpstreams(transforms, names).value;
    ListInputsExactly(transforms[i].1.entries, items, names, x);
    assert upstream[order[k]] == if k == 0 then [] else [order[k - 1]];
  }

  lemma {:induction false} UpstreamsCoverTransforms(transforms: Dict, names: seq<string>)
    requires ReadUpstreams(transforms, names).Ok?
    ensures forall n :: n in KeysOf(transforms) <==> n in ReadUpstreams(transforms, names).value
  {
    if transforms != [] {
      assert KeysOf(transforms) == [transforms[0].0] + KeysOf(transforms[1..]);
      UpstreamsCoverTransforms(transforms[1..], names);
    }
  }

  /** `remap_chain` on a config's `transforms` entry: each error in turn, else the one chain. */
  method RemapChain(found: Option<Py>) returns (r: Result<seq<(string, Py)>, ChainError>)
    requires found.Some? && found.value.PyDict? ==> Distinct(KeysOf(found.value.entries))
    ensures found.None? || !found.value.PyDict? || found.value.entries == [] ==> r == Err(NoTransforms)
    ensures found.Some? && found.value.PyDict? && found.value.entries != [] ==>
              var transforms := found.value.entries;
              var upstreams := ReadUpstreams(transforms, KeysOf(transforms));
              && (FirstProblem(transforms).Some? ==> r == Err(FirstProblem(transforms).value))
              && (FirstProblem(transforms).None? && upstreams.Err? ==> r == Err(upstreams.error))
              && (FirstProblem(transforms).None? && upstreams.Ok? && r.Err? ==> r == Err(NotOneChain))
              && (r.Ok? <==> exists order :: Accepts(transforms, order))
              && (r.Ok? ==> Accepts(transforms, KeysOf(r.value)))
              && (r.Ok? ==> forall entry <- r.value :: entry in transforms)
  {
    if found.None? || !found.value.PyDict? || found.value.entries == [] {
      return Err(NoTransforms);
    }
    var transforms := found.value.entries;
    var problem := FirstProblem(transforms);
    if problem.Some? {
      return Err(problem.value);
    }
    var names := KeysOf(transforms);
    var upstreams := ReadUpstreams(transforms, names);
    if upstreams.Err? {
      return Err(upstreams.error);
    }
    UpstreamsCoverTransforms(transforms, names);
    assert names[0] == transforms[0].0;
    var order := OrderTransforms(names, upstreams.value);
    if order.None? {
      return Err(NotOneChain);
    }
    assert Accepts(transforms, order.value);
    var out: seq<(string, Py)> := [];
    for i := 0 to |order.value|
      invariant KeysOf(out) == order.value[..i]
      invariant forall entry <- out :: entry in transforms
    {
      var name := order.value[i];
      assert name in names;
      var k :| 0 <= k < |names| && names[k] == name;
      GetIsEntry(transforms, k);
      assert transforms[k] == (name, Get(transforms, name).value);
      out := out + [(name, Get(transforms, name).value)];
    }
    assert order.value[..|order.value|] == order.value;
    return Ok(out);
  }

  // ---------------------------------------------------------------------------
  // Rewiring
  // ---------------------------------------------------------------------------

  const RUNNER_SOURCE := "runner_stdin"

  /** A file sink of JSON lines. */
  function FileSink(path: string, upstream: string): Py {
    PyDict([("type", PyStr("file")), ("path", PyStr(path)), ("inputs", PyList([PyStr(upstream)])),
            ("encoding", PyDict([("codec", PyStr("json"))]))])
  }

  /** The config Vector is started with: `transforms` between the runner's source and a sink on `last`. */
  function RunnerConfig(dataDir: string, outputFile: string, transforms: Dict, last: string): Dict {
    [("data_dir", PyStr(dataDir)),
     ("sources", PyDict([(RUNNER_SOURCE, PyDict([("type", PyStr("stdin"))]))])),
     ("transforms", PyDict(transforms)),
     ("sinks", PyDict([("runner_output", FileSink(outputFile, last))])),
     ("api", PyDict([("enabled", PyBool(false))]))]
  }

  ghost predicate AllDicts(transforms: Dict) {
    forall i :: 0 <= i < |transforms| ==> transforms[i].1.PyDict?
  }

  /** The name the transform at position `i` of a chained list reads from, the first reading `source`. */
  function ReadsFrom(source: string, transforms: Dict, i: nat): string
    requires i <= |transforms|
  {
    if i == 0 then source else transforms[i - 1].0
  }

  function Rewire(transform: Py, upstream: string): Py
    requires transform.PyDict?
  {
    PyDict(Assign(transform.entries, "inputs", PyList([PyStr(upstream)])))
  }

  /** The transforms section of the runner's config. */
  function Rewired(source: string, transforms: Dict): Dict
    requires AllDicts(transforms)
  {
    seq(|transforms|, i requires 0 <= i < |transforms| =>
      (transforms[i].0, Rewire(transforms[i].1, ReadsFrom(source, transforms, i))))
  }

  /** `_vector_config`'s loop: each transform reads the one before it, the first `source`. */
  method ChainTransforms(source: string, transforms: Dict) returns (chained: Dict, upstream: string)
    requires Distinct(KeysOf(transforms)) && AllDicts(transforms)
    ensures chained == Rewired(source, transforms)
    ensures upstream == ReadsFrom(source, transforms, |transforms|)
  {
    chained, upstream := [], source;
    ghost var rewired := Rewired(source, transforms);
    for i := 0 to |transforms|
      invariant chained == rewired[..i]
      invariant upstream == ReadsFrom(source, transforms, i)
    {
      var (name, transform) := transforms[i];
      assert rewired[..i + 1] == rewired[..i] + [(name, Rewire(transform, upstream))];
      NotYetAssigned(rewired, i, transforms);
      AssignNew(chained, name, Rewire(transform, upstream));
      chained := Assign(chained, name, Rewire(transform, upstream));
      upstream := name;
    }
    assert rewired[..|transforms|] == rewired;
  }

  lemma NotYetAssigned(rewired: Dict, i: nat, transforms: Dict)
    requires Distinct(KeysOf(transforms)) && KeysOf(rewired) == KeysOf(transforms) && i < |transforms|
    ensures transforms[i].0 !in KeysOf(rewired[..i])
  {
    forall k | 0 <= k < i ensures KeysOf(rewired[..i])[k] != transforms[i].0 {
      assert KeysOf(rewired[..i])[k] == KeysOf(rewired)[k] == KeysOf(transforms)[k];
      assert KeysOf(transforms)[k] != KeysOf(transforms)[i];
    }
  }

  /** The runner's source, each transform on the one before it, and the sink on the last one or the source. */
  method VectorConfig(transforms: Dict, dataDir: string, outputFile: string) returns (config: Dict)
    requires Distinct(KeysOf(transforms)) && AllDicts(transforms)
    ensures config == RunnerConfig(dataDir, outputFile, Rewired(RUNNER_SOURCE, transforms),
                                   if transforms == [] then RUNNER_SOURCE else transforms[|transforms| - 1].0)
  {
    var chained, upstream := ChainTransforms(RUNNER_SOURCE, transforms);
    return RunnerConfig(dataDir, outputFile, chained, upstream);
  }

  /** The config as Vector reads it, key by key. */
  lemma RunnerConfigReads(dataDir: string, outputFile: string, transforms: Dict, last: string)
    ensures var config := RunnerConfig(dataDir, outputFile, transforms, last);
            && KeysOf(config) == ["data_dir", "sources", "transforms", "sinks", "api"]
            && Get(config, "data_dir") == Some(PyStr(dataDir))
            && Get(config, "sources") == Some(PyDict([("runner_stdin", PyDict([("type", PyStr("stdin"))]))]))
            && Get(config, "transforms") == Some(PyDict(transforms))
            && Get(config, "sinks") == Some(PyDict([("runner_output", FileSink(outputFile, last))]))
            && Get(config, "api") == Some(PyDict([("enabled", PyBool(false))]))
  {
    var config := RunnerConfig(dataDir, outputFile, transforms, last);
    assert KeysOf(config) == ["data_dir", "sources", "transforms", "sinks", "api"];
    GetIsEntry(config, 0);
    GetIsEntry(config, 1);
    GetIsEntry(config, 2);
    GetIsEntry(config, 3);
    GetIsEntry(config, 4);
  }

  lemma FileSinkReads(path: string, upstream: string)
    ensures FileSink(path, upstream).PyDict?
    ensures var sink := FileSink(path, upstream).entries;
            && KeysOf(sink) == ["type", "path", "inputs", "encoding"]
            && Get(sink, "type") == Some(PyStr("file"))
            && Get(sink, "path") == Some(PyStr(path))
            && Get(sink, "inputs") == Some(PyList([PyStr(upstream)]))
            && Get(sink, "encoding") == Some(PyDict([("codec", PyStr("json"))]))
  {
    var sink := FileSink(path, upstream).entries;
    assert KeysOf(sink) == ["type", "path", "inputs", "encoding"];
    GetIsEntry(sink, 0);
    GetIsEntry(sink, 1);
    GetIsEntry(sink, 2);
    GetIsEntry(sink, 3);
  }

  /** Rewiring changes nothing but `inputs`. */
  lemma RewiringKeepsOptions(source: string, transforms: Dict, i: nat, option: string)
    requires AllDicts(transforms) && i < |transforms|
    ensures Rewired(source, transforms)[i].0 == transforms[i].0
    ensures Get(Rewired(source, transforms)[i].1.entries, option) ==
            if option == "inputs" then Some(PyList([PyStr(ReadsFrom(source, transforms, i))]))
            else Get(transforms[i].1.entries, option)
  {
    GetAssign(transforms[i].1.entries, "inputs", PyList([PyStr(ReadsFrom(source, transforms, i))]), option);
  }

  lemma {:induction false} ProblemFree(transforms: Dict)
    ensures FirstProblem(transforms).None? <==>
            forall i :: 0 <= i < |transforms| ==> TransformProblem(transforms[i].0, transforms[i].1).None?
  {
    if transforms != [] {
      ProblemFree(transforms[1..]);
      assert forall i :: 0 < i < |transforms| ==> transforms[i] == transforms[1..][i - 1];
    }
  }

  /** What the upstream of the rewired transform at `i` reads as. */
  function RewiredUpstream(source: string, transforms: Dict, i: nat): seq<string>
    requires i < |transforms|
  {
    var before := ReadsFrom(source, transforms, i);
    if before in KeysOf(transforms) then [before] else []
  }

  lemma OneInput(transform: Dict, before: string, names: seq<string>)
    requires Get(transform, "inputs") == Some(PyList([PyStr(before)]))
    ensures InputsWithin(transform, names) == Ok(if before in names then [before] else [])
  {
    assert [PyStr(before)][1..] == [] && [before][1..] == [];
    assert Strings([PyStr(before)]) == [before];
    assert KnownNames([before], names) == if before in names then [before] else [];
  }

  lemma ReadOneMore(transforms: Dict, names: seq<string>, before: seq<string>)
    requires transforms != [] && transforms[0].1.PyDict?
    requires InputsWithin(transforms[0].1.entries, names) == Ok(before)
    requires ReadUpstreams(transforms[1..], names).Ok?
    ensures ReadUpstreams(transforms, names)
            == Ok(ReadUpstreams(transforms[1..], names).value[transforms[0].0 := before])
  {
  }

  lemma {:induction false} ReadRewired(source: string, transforms: Dict, names: seq<string>, from: nat)
    requires AllDicts(transforms) && names == KeysOf(transforms) && Distinct(names) && from <= |transforms|
    ensures var r := ReadUpstreams(Rewired(source, transforms)[from..], names);
            && r.Ok?
            && (forall i :: from <= i < |names| ==>
                  names[i] in r.value && r.value[names[i]] == RewiredUpstream(source, transforms, i))
    decreases |transforms| - from
  {
    if from < |transforms| {
      ReadRewired(source, transforms, names, from + 1);
      var rest := Rewired(source, transforms)[from..];
      assert rest[0] == Rewired(source, transforms)[from] && rest[1..] == Rewired(source, transforms)[from + 1..];
      RewiringKeepsOptions(source, transforms, from, "inputs");
      OneInput(rest[0].1.entries, ReadsFrom(source, transforms, from), names);
      ReadOneMore(rest, names, RewiredUpstream(source, transforms, from));
      assert rest[0].0 == names[from];
    }
  }

  /**
    Rewiring then recognising is a round trip exactly when no transform has the source's
    name: the rewired section is then accepted in the same order, and otherwise in none.
   */
  lemma RewiringRoundTrips(source: string, transforms: Dict)
    requires transforms != [] && Distinct(KeysOf(transforms))
    requires AllDicts(transforms)
    requires forall i :: 0 <= i < |transforms| ==> TransformProblem(transforms[i].0, transforms[i].1).None?
    ensures var rewired := Rewired(source, transforms);
            && KeysOf(rewired) == KeysOf(transforms)
            && (source !in KeysOf(transforms) ==> Accepts(rewired, KeysOf(transforms)))
            && (source in KeysOf(transforms) ==> forall order :: !Accepts(rewired, order))
  {
    var rewired, names := Rewired(source, transforms), KeysOf(transforms);
    assert KeysOf(rewired) == names;
    RewiredStaysInline(source, transforms);
    ReadRewired(source, transforms, names, 0);
    assert rewired[0..] == rewired;
    var upstream := ReadUpstreams(rewired, names).value;
    UpstreamsCoverTransforms(rewired, names);
    if source in names {
      forall order ensures !IsChain(upstream, order) {
        ShadowedSourceHasNoHead(source, transforms, names, upstream, order);
      }
    } else {
      RewiredIsChain(source, transforms, names, upstream);
    }
  }

  lemma RewiredStaysInline(source: string, transforms: Dict)
    requires AllDicts(transforms)
    requires forall i :: 0 <= i < |transforms| ==> TransformProblem(transforms[i].0, transforms[i].1).None?
    ensures FirstProblem(Rewired(source, transforms)).None?
  {
    var rewired := Rewired(source, transforms);
    forall i | 0 <= i < |rewired| ensures TransformProblem(rewired[i].0, rewired[i].1).None? {
      assert TransformProblem(transforms[i].0, transforms[i].1).None?;
      RewiringKeepsOptions(source, transforms, i, "type");
      RewiringKeepsOptions(source, transforms, i, "source");
    }
    ProblemFree(rewired);
  }

  /** `upstream` is what reading the rewired transforms gives. */
  ghost predicate ReadsRewired(source: string, transforms: Dict, names: seq<string>, upstream: Upstreams) {
    && names == KeysOf(transforms)
    && (forall n :: n in names <==> n in upstream)
    && (forall i :: 0 <= i < |names| ==>
          names[i] in upstream && upstream[names[i]] == RewiredUpstream(source, transforms, i))
  }

  lemma RewiredIsChain(source: string, transforms: Dict, names: seq<string>, upstream: Upstreams)
    requires transforms != [] && ReadsRewired(source, transforms, names, upstream) && Distinct(names)
    requires source !in names
    ensures IsChain(upstream, names)
  {
    forall k | 0 < k < |names| ensures upstream[names[k]] == [names[k - 1]] {
      assert names[k - 1] == transforms[k - 1].0 && names[k - 1] in names;
    }
  }

  lemma EveryoneReads(source: string, transforms: Dict, names: seq<string>, upstream: Upstreams, i: nat)
    requires ReadsRewired(source, transforms, names, upstream) && source in names && i < |names|
    ensures upstream[names[i]] != []
  {
    if i > 0 {
      assert names[i - 1] == transforms[i - 1].0 && names[i - 1] in names;
    }
  }

  lemma ShadowedSourceHasNoHead(
    source: string, transforms: Dict, names: seq<string>, upstream: Upstreams, order: seq<string>)
    requires ReadsRewired(source, transforms, names, upstream) && source in names
    ensures !IsChain(upstream, order)
  {
    if order != [] && order[0] in upstream {
      var i :| 0 <= i < |names| && names[i] == order[0];
      EveryoneReads(source, transforms, names, upstream, i);
    }
  }

  /** For a chain the recogniser accepted, with the exact condition on its names. */
  lemma AcceptedChainsRewire(transforms: Dict, chain: Dict)
    requires Distinct(KeysOf(transforms)) && Accepts(transforms, KeysOf(chain))
    requires forall entry <- chain :: entry in transforms
    ensures AllDicts(chain)
    ensures (exists order :: Accepts(Rewired(RUNNER_SOURCE, chain), order)) <==> RUNNER_SOURCE !in KeysOf(transforms)
    ensures RUNNER_SOURCE !in KeysOf(transforms) ==> Accepts(Rewired(RUNNER_SOURCE, chain), KeysOf(chain))
  {
    ProblemFree(transforms);
    forall k | 0 <= k < |chain| ensures TransformProblem(chain[k].0, chain[k].1).None? {
      assert chain[k] in chain;
      var i :| 0 <= i < |transforms| && transforms[i] == chain[k];
    }
    assert KeysOf(chain) != [];
    UpstreamsCoverTransforms(transforms, KeysOf(transforms));
    RewiringRoundTrips(RUNNER_SOURCE, chain);
  }
}
