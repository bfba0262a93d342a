/**
  The in-process verdict on a Vector config
  (vector-vrl/src/vector_vrl/config_check.py:104-134, 177-234).
 */
module ConfigCheck {
  import opened Wrappers
  import opened PythonValues
  import opened Diagnostics

  /** The verdict on one remap: compiled, excused with a reason, or failed with an error. */
  datatype TransformCheck = TransformCheck(name: string, ok: bool, error: Option<string>, unchecked: Option<Reason>)

  datatype Verdict = Verdict(ok: bool, checked: seq<TransformCheck>, skipped: seq<string>) {
    function Failures(): seq<TransformCheck> {
      Where(checked, (c: TransformCheck) => !c.ok)
    }

    function Unchecked(): seq<TransformCheck> {
      Where(checked, (c: TransformCheck) => c.unchecked.Some?)
    }
  }

  function Where(checks: seq<TransformCheck>, p: TransformCheck -> bool): seq<TransformCheck> {
    if checks == [] then []
    else (if p(checks[0]) then [checks[0]] else []) + Where(checks[1..], p)
  }

  lemma {:induction false} WhereMembers(checks: seq<TransformCheck>, p: TransformCheck -> bool)
    ensures forall c :: c in Where(checks, p) <==> c in checks && p(c)
  {
    if checks != [] {
      assert checks == [checks[0]] + checks[1..];
      WhereMembers(checks[1..], p);
    }
  }

  /** The checks chosen keep their order. */
  lemma {:induction false} WhereConcat(a: seq<TransformCheck>, b: seq<TransformCheck>, p: TransformCheck -> bool)
    ensures Where(a + b, p) == Where(a, p) + Where(b, p)
  {
    if a == [] {
      assert a + b == b;
    } else {
      assert (a + b)[1..] == a[1..] + b;
      WhereConcat(a[1..], b, p);
      var head := if p(a[0]) then [a[0]] else [];
      assert Where(a + b, p) == head + (Where(a[1..], p) + Where(b, p));
    }
  }

  /** A transform `validate_config` compiles: a remap carrying its VRL inline. */
  function InlineSource(transform: Py): Option<Py> {
    if !transform.PyDict? || Get(transform.entries, "type") != Some(PyStr("remap")) then None
    else match Get(transform.entries, "source")
      case None => None
      case Some(PyNone) => None
      case Some(source) => Some(source)
  }

  /** A remap that reads its VRL from a file. */
  predicate ReadsFile(transform: Py) {
    transform.PyDict? && Get(transform.entries, "type") == Some(PyStr("remap")) && InlineSource(transform).None?
  }

  /** The transforms to compile, by name and source, in config order. */
  function InlineSources(transforms: Dict): Dict {
    if transforms == [] then []
    else
      var n := |transforms| - 1;
      var source := InlineSource(transforms[n].1);
      InlineSources(transforms[..n]) + if source.Some? then [(transforms[n].0, source.value)] else []
  }

  function FileReaders(transforms: Dict): seq<string> {
    if transforms == [] then []
    else
      var n := |transforms| - 1;
      FileReaders(transforms[..n]) + if ReadsFile(transforms[n].1) then [transforms[n].0] else []
  }

  /** A remap that carries its source: `type` is the text `remap`, and `source` is there and not None. */
  ghost predicate IsInline(transform: Py, source: Py) {
    && transform.PyDict?
    && Get(transform.entries, "type") == Some(PyStr("remap"))
    && Get(transform.entries, "source") == Some(source) && source != PyNone
  }

  /** A remap that does not: `source` is absent or None. */
  ghost predicate IsFileBacked(transform: Py) {
    && transform.PyDict?
    && Get(transform.entries, "type") == Some(PyStr("remap"))
    && (Get(transform.entries, "source") == None || Get(transform.entries, "source") == Some(PyNone))
  }

  ghost predicate Ascends(places: seq<nat>) {
    forall i, j :: 0 <= i < j < |places| ==> places[i] < places[j]
  }

  /** `places` are those of the transforms `chosen` holds of. */
  ghost predicate PlacesOf(transforms: Dict, places: seq<nat>, chosen: Py -> bool) {
    forall n: nat :: n in places <==> n < |transforms| && chosen(transforms[n].1)
  }

  lemma OneMorePlace(transforms: Dict, places: seq<nat>, chosen: Py -> bool)
    requires transforms != []
    requires Ascends(places) && PlacesOf(transforms[..|transforms| - 1], places, chosen)
    ensures var n := |transforms| - 1;
            var all := if chosen(transforms[n].1) then places + [n] else places;
            Ascends(all) && PlacesOf(transforms, all, chosen)
  {
    var n := |transforms| - 1;
    forall i | 0 <= i < |places| ensures places[i] < n {
      assert places[i] in places;
    }
    forall m: nat | m < n ensures m in places <==> chosen(transforms[m].1) {
      assert transforms[..n][m] == transforms[m];
    }
  }

  /** The source at each place is that transform's, under its name. */
  ghost predicate SourcesAt(transforms: Dict, places: seq<nat>, sources: Dict) {
    && |sources| == |places|
    && forall i :: 0 <= i < |places| ==>
         && places[i] < |transforms|
         && sources[i].0 == transforms[places[i]].0 && IsInline(transforms[places[i]].1, sources[i].1)
  }

  lemma SourcesStay(transforms: Dict, n: nat, places: seq<nat>, sources: Dict)
    requires n <= |transforms| && SourcesAt(transforms[..n], places, sources)
    ensures SourcesAt(transforms, places, sources)
  {
    forall i | 0 <= i < |places|
      ensures places[i] < |transforms| && sources[i].0 == transforms[places[i]].0
              && IsInline(transforms[places[i]].1, sources[i].1)
    {
      assert transforms[..n][places[i]] == transforms[places[i]];
    }
  }

  lemma OneMoreSource(transforms: Dict, n: nat, places: seq<nat>, sources: Dict, source: Py)
    requires n < |transforms| && SourcesAt(transforms, places, sources) && IsInline(transforms[n].1, source)
    ensures SourcesAt(transforms, places + [n], sources + [(transforms[n].0, source)])
  {
  }

  ghost predicate HasInline(transform: Py) {
    exists source :: IsInline(transform, source)
  }

  lemma InlineSourceExactly(transform: Py)
    ensures InlineSource(transform).Some? <==> HasInline(transform)
    ensures InlineSource(transform).Some? ==> IsInline(transform, InlineSource(transform).value)
    ensures ReadsFile(transform) <==> IsFileBacked(transform)
  {
    if InlineSource(transform).Some? {
      assert IsInline(transform, InlineSource(transform).value);
    }
  }

  /** The transforms compiled are the inline remaps, each under its name with its source, in config order. */
  lemma {:induction false} InlineSourcesExactly(transforms: Dict) returns (places: seq<nat>)
    ensures Ascends(places) && PlacesOf(transforms, places, HasInline)
    ensures SourcesAt(transforms, places, InlineSources(transforms))
  {
    places := [];
    if transforms != [] {
      var n := |transforms| - 1;
      places := InlineSourcesExactly(transforms[..n]);
      OneMorePlace(transforms, places, HasInline);
      SourcesStay(transforms, n, places, InlineSources(transforms[..n]));
      InlineSourceExactly(transforms[n].1);
      var earlier := InlineSources(transforms[..n]);
      if HasInline(transforms[n].1) {
        var source := InlineSource(transforms[n].1).value;
        OneMoreSource(transforms, n, places, earlier, source);
        assert InlineSources(transforms) == earlier + [(transforms[n].0, source)];
        places := places + [n];
      } else {
        assert InlineSources(transforms) == earlier + [] == earlier;
      }
    }
  }

  ghost predicate NamesAt(transforms: Dict, places: seq<nat>, names: seq<string>) {
    && |names| == |places|
    && forall i :: 0 <= i < |places| ==> places[i] < |transforms| && names[i] == transforms[places[i]].0
  }

  lemma NamesStay(transforms: Dict, n: nat, places: seq<nat>, names: seq<string>)
    requires n <= |transforms| && NamesAt(transforms[..n], places, names)
    ensures NamesAt(transforms, places, names)
  {
    forall i | 0 <= i < |places| ensures places[i] < |transforms| && names[i] == transforms[places[i]].0 {
      assert transforms[..n][places[i]] == transforms[places[i]];
    }
  }

  /** The transforms skipped are the file-backed remaps, by name, in config order. */
  lemma {:induction false} FileReadersExactly(transforms: Dict) returns (places: seq<nat>)
    ensures Ascends(places) && PlacesOf(transforms, places, IsFileBacked)
    ensures NamesAt(transforms, places, FileReaders(transforms))
  {
    places := [];
    if transforms != [] {
      var n := |transforms| - 1;
      places := FileReadersExactly(transforms[..n]);
      OneMorePlace(transforms, places, IsFileBacked);
      InlineSourceExactly(transforms[n].1);
      var earlier := FileReaders(transforms[..n]);
      NamesStay(transforms, n, places, earlier);
      if IsFileBacked(transforms[n].1) {
        assert FileReaders(transforms) == earlier + [transforms[n].0];
        places := places + [n];
      } else {
        assert FileReaders(transforms) == earlier + [] == earlier;
      }
    }
  }

  /** What a source comes to: good, unchecked for a reason, or wrong with the compiler's text. */
  ghost predicate Judges(compiler: Compiler, check: TransformCheck, name: string, source: string) {
    var error := CompileError(compiler, source);
    && check.name == name
    && check.unchecked == ReasonFor(source, error)
    && (check.ok <==> error.None? || AllExcused(error))
    && check.error == (if check.ok then None else error)
  }

  /** Each source is judged by its own compile error, in order. */
  ghost predicate JudgesAll(compiler: Compiler, str: Py -> string, sources: Dict, checked: seq<TransformCheck>) {
    && |checked| == |sources|
    && forall i :: 0 <= i < |sources| ==> Judges(compiler, checked[i], sources[i].0, str(sources[i].1))
  }

  /** No transform is both failed and unchecked, and none that is ok carries an error. */
  ghost predicate Coherent(checked: seq<TransformCheck>) {
    forall c <- checked :: (c.unchecked.Some? ==> c.ok) && (c.ok ==> c.error.None?)
  }

  lemma JudgedIsCoherent(compiler: Compiler, str: Py -> string, sources: Dict, checked: seq<TransformCheck>)
    requires JudgesAll(compiler, str, sources, checked)
    ensures Coherent(checked)
  {
    forall c <- checked ensures (c.unchecked.Some? ==> c.ok) && (c.ok ==> c.error.None?) {
      var i :| 0 <= i < |checked| && checked[i] == c;
      assert Judges(compiler, checked[i], sources[i].0, str(sources[i].1));
    }
  }

  /**
    `validate_config` on a config's `transforms` entry; None when it is present but is no
    mapping.  `str` is Python's conversion to text.
   */
  method ValidateConfig(compiler: Compiler, str: Py -> string, found: Option<Py>) returns (r: Option<Verdict>)
    ensures r.None? <==> found.Some? && Truthy(found.value) && !found.value.PyDict?
    ensures r.Some? ==>
              var transforms := if found.Some? && found.value.PyDict? then found.value.entries else [];
              && JudgesAll(compiler, str, InlineSources(transforms), r.value.checked)
              && r.value.skipped == FileReaders(transforms)
              && r.value.ok == (r.value.Failures() == [])
              && (forall c :: !(c in r.value.Failures() && c in r.value.Unchecked()))
              && Coherent(r.value.checked)
  {
    var transforms: Dict := [];
    if found.Some? && Truthy(found.value) {
      if !found.value.PyDict? {
        return None;
      }
      transforms := found.value.entries;
    }
    var checked, skipped := CheckTransforms(compiler, str, transforms);
    JudgedIsCoherent(compiler, str, InlineSources(transforms), checked);
    r := Some(Verdict(forall c <- checked :: c.ok, checked, skipped));
    FailuresAndUnchecked(r.value);
  }

  /** The loop over the transforms. */
  method CheckTransforms(compiler: Compiler, str: Py -> string, transforms: Dict)
    returns (checked: seq<TransformCheck>, skipped: seq<string>)
    ensures JudgesAll(compiler, str, InlineSources(transforms), checked)
    ensures skipped == FileReaders(transforms)
  {
    checked, skipped := [], [];
    for i := 0 to |transforms|
      invariant JudgesAll(compiler, str, InlineSources(transforms[..i]), checked)
      invariant skipped == FileReaders(transforms[..i])
    {
      assert transforms[..i + 1][..i] == transforms[..i];
      var (name, transform) := transforms[i];
      var inline := InlineSource(transform);
      if inline.Some? {
        var check := CheckTransform(compiler, name, str(inline.value));
        OneMoreJudged(compiler, str, InlineSources(transforms[..i]), checked, name, inline.value, check);
        checked := checked + [check];
      } else if ReadsFile(transform) {
        skipped := skipped + [name];
      }
    }
    assert transforms[..|transforms|] == transforms;
  }

  lemma OneMoreJudged(compiler: Compiler, str: Py -> string, sources: Dict, checked: seq<TransformCheck>,
                      name: string, source: Py, check: TransformCheck)
    requires JudgesAll(compiler, str, sources, checked) && Judges(compiler, check, name, str(source))
    ensures JudgesAll(compiler, str, sources + [(name, source)], checked + [check])
  {
    var all, judged := sources + [(name, source)], checked + [check];
    forall i | 0 <= i < |all| ensures Judges(compiler, judged[i], all[i].0, str(all[i].1)) {
      if i < |sources| {
        assert Judges(compiler, checked[i], sources[i].0, str(sources[i].1));
      }
    }
  }

  /** With coherent checks, `ok` holds exactly without failures, and nothing is failed and unchecked at once. */
  lemma FailuresAndUnchecked(verdict: Verdict)
    requires Coherent(verdict.checked) && verdict.ok == forall c <- verdict.checked :: c.ok
    ensures verdict.ok <==> verdict.Failures() == []
    ensures forall c :: !(c in verdict.Failures() && c in verdict.Unchecked())
  {
    WhereMembers(verdict.checked, (c: TransformCheck) => !c.ok);
    WhereMembers(verdict.checked, (c: TransformCheck) => c.unchecked.Some?);
    if verdict.Failures() != [] {
      assert verdict.Failures()[0] in verdict.Failures();
    }
  }

  method CheckTransform(compiler: Compiler, name: string, source: string) returns (check: TransformCheck)
    ensures Judges(compiler, check, name, source)
  {
    var error := CompileProgram(compiler, source);
    var reason: Option<Reason> := None;
    if error.Some? {
      reason := UncompilableReason(source, error);
    }
    var ok := error.None? || reason.Some?;
    return TransformCheck(name, ok, if ok then None else error, reason);
  }
}
