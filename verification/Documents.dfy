/**
  The nested values both JSON and VRL are made of: scalars, arrays and objects.

  An object is an ordered map from keys to values (Rust's BTreeMap), written as its
  entries in iteration order; `WellFormed` says those keys strictly ascend.
 */
module Documents {
  import opened Wrappers
  import opened Decimals

  datatype Doc<S> =
    | Scalar(scalar: S)
    | Array(items: seq<Doc<S>>)
    | Object(fields: seq<Field<S>>)

  datatype Field<S> = Field(key: string, value: Doc<S>)

  /** The order of keys: by character, a proper prefix first. */
  predicate KeyLess(a: string, b: string) {
    b != [] && (a == [] || a[0] < b[0] || (a[0] == b[0] && KeyLess(a[1..], b[1..])))
  }

  ghost predicate Ascending<S>(fields: seq<Field<S>>) {
    forall i, j :: 0 <= i < j < |fields| ==> KeyLess(fields[i].key, fields[j].key)
  }

  ghost predicate WellFormed<S>(d: Doc<S>) {
    match d
    case Scalar(_) => true
    case Array(items) => forall item <- items :: WellFormed(item)
    case Object(fields) => Ascending(fields) && forall field <- fields :: WellFormed(field.value)
  }

  lemma {:induction false} KeyLessIrreflexive(a: string)
    ensures !KeyLess(a, a)
  {
    if a != [] {
      KeyLessIrreflexive(a[1..]);
    }
  }

  /** Keys compare at their first difference; a proper prefix comes first. */
  lemma {:induction false} KeyLessExactly(a: string, b: string)
    ensures KeyLess(a, b) <==>
            || (|a| < |b| && a == b[..|a|])
            || exists k :: 0 <= k < |a| && k < |b| && a[..k] == b[..k] && a[k] < b[k]
  {
    if a != [] && b != [] {
      var c, d := a[1..], b[1..];
      assert a == [a[0]] + c && b == [b[0]] + d;
      KeyLessExactly(c, d);
      if a[0] == b[0] {
        assert |a| <= |b| ==> b[..|a|] == [b[0]] + d[..|c|];
        if k :| 0 <= k < |c| && k < |d| && c[..k] == d[..k] && c[k] < d[k] {
          assert a[..k + 1] == [a[0]] + c[..k] && b[..k + 1] == [b[0]] + d[..k];
          assert a[k + 1] < b[k + 1];
        }
        if k :| 0 <= k < |a| && k < |b| && a[..k] == b[..k] && a[k] < b[k] {
          assert c[..k - 1] == a[..k][1..] && d[..k - 1] == b[..k][1..];
          assert c[k - 1] < d[k - 1];
        }
      } else {
        assert |a| <= |b| ==> b[..|a|][0] == b[0];
        assert a[..0] == b[..0];
        forall k | 0 < k < |a| && k < |b| ensures a[..k] != b[..k] {
          assert a[..k][0] != b[..k][0];
        }
      }
    }
  }

  // ---------------------------------------------------------------------------
  // An ordered map's insert
  // ---------------------------------------------------------------------------

  /** Sets `key` to `value`, in key order, replacing what the key held. */
  function Insert<S>(fields: seq<Field<S>>, key: string, value: Doc<S>): seq<Field<S>> {
    if fields == [] || KeyLess(key, fields[0].key) then [Field(key, value)] + fields
    else if fields[0].key == key then [Field(key, value)] + fields[1..]
    else [fields[0]] + Insert(fields[1..], key, value)
  }

  lemma {:induction false} InsertLast<S>(fields: seq<Field<S>>, key: string, value: Doc<S>)
    requires forall field <- fields :: KeyLess(field.key, key)
    ensures Insert(fields, key, value) == fields + [Field(key, value)]
  {
    if fields != [] {
      assert fields[0] in fields;
      KeyLessAsymmetric(fields[0].key, key);
      KeyLessIrreflexive(key);
      InsertLast(fields[1..], key, value);
    }
  }

  lemma {:induction false} KeyLessTransitive(a: string, b: string, c: string)
    requires KeyLess(a, b) && KeyLess(b, c)
    ensures KeyLess(a, c)
  {
    if a != [] && a[0] == b[0] == c[0] {
      KeyLessTransitive(a[1..], b[1..], c[1..]);
    }
  }

  lemma {:induction false} KeyLessTotal(a: string, b: string)
    ensures a == b || KeyLess(a, b) || KeyLess(b, a)
  {
    if a != [] && b != [] && a[0] == b[0] {
      KeyLessTotal(a[1..], b[1..]);
      assert a == [a[0]] + a[1..] && b == [b[0]] + b[1..];
    }
  }

  lemma {:induction false} KeyLessAsymmetric(a: string, b: string)
    requires KeyLess(a, b)
    ensures !KeyLess(b, a)
  {
    if a != [] && a[0] == b[0] {
      KeyLessAsymmetric(a[1..], b[1..]);
    }
  }

  // ---------------------------------------------------------------------------
  // Paths
  // ---------------------------------------------------------------------------

  datatype Segment = Index(index: nat) | Key(key: string)

  type Path = seq<Segment>

  function SegmentText(segment: Segment): string {
    match segment
    case Index(index) => "[" + Decimal(index) + "]"
    case Key(key) => "." + key
  }

  /** A path as errors print it, root first: `.a[1].b`. */
  function Render(path: Path): string {
    if path == [] then "" else SegmentText(path[0]) + Render(path[1..])
  }

  function Lookup<S>(fields: seq<Field<S>>, key: string): Option<Doc<S>> {
    if fields == [] then None
    else if fields[0].key == key then Some(fields[0].value)
    else Lookup(fields[1..], key)
  }

  /** What following `path` from `d` reaches. */
  function At<S>(d: Doc<S>, path: Path): Option<Doc<S>>
    decreases path
  {
    if path == [] then Some(d)
    else match d
      case Scalar(_) => None
      case Array(items) =>
        if path[0].Index? && path[0].index < |items| then At(items[path[0].index], path[1..]) else None
      case Object(fields) =>
        if path[0].Key? && Lookup(fields, path[0].key).Some?
        then At(Lookup(fields, path[0].key).value, path[1..])
        else None
  }

  /** A path's text grows by `[i]` or `.key` at its end. */
  lemma {:induction false} RenderGrows(path: Path, index: nat, key: string)
    ensures Render([]) == ""
    ensures Render(path + [Index(index)]) == Render(path) + "[" + Decimal(index) + "]"
    ensures Render(path + [Key(key)]) == Render(path) + "." + key
  {
    var byIndex, byKey := path + [Index(index)], path + [Key(key)];
    if path == [] {
      assert byIndex[1..] == [] && byKey[1..] == [];
      assert SegmentText(Index(index)) + "" == SegmentText(Index(index));
      assert SegmentText(Key(key)) + "" == SegmentText(Key(key));
    } else {
      assert byIndex[1..] == path[1..] + [Index(index)] && byKey[1..] == path[1..] + [Key(key)];
      RenderGrows(path[1..], index, key);
      assert Render(byIndex) == SegmentText(path[0]) + (Render(path[1..]) + "[" + Decimal(index) + "]");
      assert Render(byKey) == SegmentText(path[0]) + (Render(path[1..]) + "." + key);
    }
  }

  /** What an insert does to the map: one key set, every other key as it was, the order kept. */
  lemma {:induction false} InsertIsMapUpdate<S>(fields: seq<Field<S>>, key: string, value: Doc<S>, other: string)
    requires Ascending(fields)
    ensures Lookup(Insert(fields, key, value), other) == if other == key then Some(value) else Lookup(fields, other)
    ensures Ascending(Insert(fields, key, value))
    ensures forall field <- Insert(fields, key, value) :: field.key == key || field in fields
  {
    if fields != [] && !KeyLess(key, fields[0].key) && fields[0].key != key {
      var rest := Insert(fields[1..], key, value);
      InsertIsMapUpdate(fields[1..], key, value, other);
      KeyLessTotal(key, fields[0].key);
      forall field <- rest ensures KeyLess(fields[0].key, field.key) {
      }
    } else if fields != [] && KeyLess(key, fields[0].key) {
      forall j | 0 <= j < |fields| ensures KeyLess(key, fields[j].key) {
        if j > 0 {
          KeyLessTransitive(key, fields[0].key, fields[j].key);
        }
      }
    }
  }

  /** What each step of a path reaches. */
  lemma ChildAt<S>(items: seq<Doc<S>>, fields: seq<Field<S>>, i: nat, rest: Path)
    requires Ascending(fields)
    ensures At(Array(items), [Index(i)] + rest) == if i < |items| then At(items[i], rest) else None
    ensures i < |fields| ==> At(Object(fields), [Key(fields[i].key)] + rest) == At(fields[i].value, rest)
  {
    assert ([Index(i)] + rest)[1..] == rest;
    if i < |fields| {
      assert ([Key(fields[i].key)] + rest)[1..] == rest;
      LookupOwn(fields, fields[i]);
    }
  }

  /** The order a depth-first traversal meets two leaves in. */
  predicate Before(p: Path, q: Path) {
    p != [] && q != [] &&
    match (p[0], q[0])
    case (Index(i), Index(j)) => i < j || (i == j && Before(p[1..], q[1..]))
    case (Key(a), Key(b)) => KeyLess(a, b) || (a == b && Before(p[1..], q[1..]))
    case _ => false
  }

  /** It never holds both ways. */
  lemma {:induction false} BeforeIsStrict(p: Path, q: Path)
    ensures !(Before(p, q) && Before(q, p))
    ensures p == q ==> !Before(p, q)
  {
    if p != [] && q != [] {
      BeforeIsStrict(p[1..], q[1..]);
      if p[0].Key? && q[0].Key? {
        KeyLessIrreflexive(p[0].key);
        if KeyLess(p[0].key, q[0].key) {
          KeyLessAsymmetric(p[0].key, q[0].key);
        }
      }
    }
  }

  /** `path` leads to a scalar that `hit` accepts. */
  predicate HitAt<S>(d: Doc<S>, path: Path, hit: S -> bool) {
    At(d, path).Some? && At(d, path).value.Scalar? && hit(At(d, path).value.scalar)
  }

  // ---------------------------------------------------------------------------
  // The first scalar of a kind
  // ---------------------------------------------------------------------------

  function FirstHit<S>(d: Doc<S>, hit: S -> bool): Option<Path>
    decreases d
  {
    match d
    case Scalar(s) => if hit(s) then Some([]) else None
    case Array(items) => FirstInItems(items, 0, hit)
    case Object(fields) => FirstInFields(fields, hit)
  }

  function FirstInItems<S>(items: seq<Doc<S>>, index: nat, hit: S -> bool): Option<Path>
    decreases items
  {
    if items == [] then None
    else match FirstHit(items[0], hit)
      case Some(path) => Some([Index(index)] + path)
      case None => FirstInItems(items[1..], index + 1, hit)
  }

  function FirstInFields<S>(fields: seq<Field<S>>, hit: S -> bool): Option<Path>
    decreases fields
  {
    if fields == [] then None
    else match FirstHit(fields[0].value, hit)
      case Some(path) => Some([Key(fields[0].key)] + path)
      case None => FirstInFields(fields[1..], hit)
  }

  lemma {:induction false} FirstHitIsHit<S>(d: Doc<S>, hit: S -> bool)
    requires WellFormed(d)
    ensures FirstHit(d, hit).Some? ==> HitAt(d, FirstHit(d, hit).value, hit)
    decreases d
  {
    match d
    case Scalar(_) =>
    case Array(items) => FirstInItemsIsHit(items, 0, hit, items);
    case Object(fields) => FirstInFieldsIsHit(fields, hit);
  }

  lemma {:induction false} FirstInItemsIsHit<S>(items: seq<Doc<S>>, index: nat, hit: S -> bool, all: seq<Doc<S>>)
    requires index <= |all| && items == all[index..]
    requires forall item <- items :: WellFormed(item)
    ensures FirstInItems(items, index, hit).Some? ==> HitAt(Array(all), FirstInItems(items, index, hit).value, hit)
    decreases items
  {
    if items != [] {
      FirstHitIsHit(items[0], hit);
      if FirstHit(items[0], hit).None? {
        FirstInItemsIsHit(items[1..], index + 1, hit, all);
      }
    }
  }

  lemma {:induction false} FirstInFieldsIsHit<S>(fields: seq<Field<S>>, hit: S -> bool)
    requires Ascending(fields) && forall field <- fields :: WellFormed(field.value)
    ensures FirstInFields(fields, hit).Some? ==> HitAt(Object(fields), FirstInFields(fields, hit).value, hit)
    decreases fields
  {
    if fields != [] {
      FirstHitIsHit(fields[0].value, hit);
      if FirstHit(fields[0].value, hit).None? {
        FirstInFieldsIsHit(fields[1..], hit);
        var rest := FirstInFields(fields[1..], hit);
        if rest.Some? {
          LookupFinds(fields[1..], rest.value[0].key);
          KeyLessIrreflexive(fields[0].key);
        }
      }
    }
  }

  lemma {:induction false} LookupFinds<S>(fields: seq<Field<S>>, key: string)
    ensures Lookup(fields, key).Some? ==>
              exists i | 0 <= i < |fields| :: fields[i] == Field(key, Lookup(fields, key).value)
  {
    if fields != [] && fields[0].key != key {
      LookupFinds(fields[1..], key);
      if Lookup(fields, key).Some? {
        var i :| 0 <= i < |fields[1..]| && fields[1..][i] == Field(key, Lookup(fields, key).value);
        assert fields[i + 1] == Field(key, Lookup(fields, key).value);
      }
    }
  }

  lemma {:induction false} LookupOwn<S>(fields: seq<Field<S>>, field: Field<S>)
    requires Ascending(fields) && field in fields
    ensures Lookup(fields, field.key) == Some(field.value)
  {
    KeyLessIrreflexive(field.key);
    if fields[0] != field {
      LookupOwn(fields[1..], field);
    }
  }

  /** Nothing accepted comes before what `FirstHit` finds, and it misses nothing. */
  lemma {:induction false} FirstHitIsFirst<S>(d: Doc<S>, hit: S -> bool, other: Path)
    requires HitAt(d, other, hit)
    ensures FirstHit(d, hit).Some?
    ensures WellFormed(d) ==> other == FirstHit(d, hit).value || Before(FirstHit(d, hit).value, other)
    decreases d
  {
    match d
    case Scalar(_) =>
    case Array(items) => FirstInItemsIsFirst(items, 0, hit, other[0].index, other[1..]);
    case Object(fields) => FirstInFieldsIsFirst(fields, hit, other[0].key, other[1..]);
  }

  lemma {:induction false} FirstInItemsIsFirst<S>(
    items: seq<Doc<S>>, index: nat, hit: S -> bool, n: nat, other: Path)
    requires n < |items| && HitAt(items[n], other, hit)
    ensures FirstInItems(items, index, hit).Some?
    ensures (forall item <- items :: WellFormed(item)) ==>
              var first := FirstInItems(items, index, hit).value;
              first == [Index(index + n)] + other || Before(first, [Index(index + n)] + other)
    decreases items
  {
    if n == 0 {
      FirstHitIsFirst(items[0], hit, other);
      assert ([Index(index)] + other)[1..] == other;
    } else if FirstHit(items[0], hit).None? {
      FirstInItemsIsFirst(items[1..], index + 1, hit, n - 1, other);
    }
  }

  lemma {:induction false} FirstInFieldsIsFirst<S>(
    fields: seq<Field<S>>, hit: S -> bool, key: string, other: Path)
    requires Lookup(fields, key).Some? && HitAt(Lookup(fields, key).value, other, hit)
    ensures FirstInFields(fields, hit).Some?
    ensures Ascending(fields) && (forall field <- fields :: WellFormed(field.value)) ==>
              var first := FirstInFields(fields, hit).value;
              first == [Key(key)] + other || Before(first, [Key(key)] + other)
    decreases fields
  {
    if fields[0].key == key {
      FirstHitIsFirst(fields[0].value, hit, other);
      assert ([Key(key)] + other)[1..] == other;
    } else {
      LookupFinds(fields, key);
      if FirstHit(fields[0].value, hit).None? {
        FirstInFieldsIsFirst(fields[1..], hit, key, other);
      }
    }
  }

  // ---------------------------------------------------------------------------
  // Converting every scalar
  // ---------------------------------------------------------------------------

  function MapDoc<S, T>(f: S -> T, d: Doc<S>): Doc<T>
    decreases d
  {
    match d
    case Scalar(s) => Scalar(f(s))
    case Array(items) => Array(MapItems(f, items))
    case Object(fields) => Object(MapFields(f, fields))
  }

  function MapItems<S, T>(f: S -> T, items: seq<Doc<S>>): (r: seq<Doc<T>>)
    ensures |r| == |items|
    decreases items
  {
    if items == [] then [] else [MapDoc(f, items[0])] + MapItems(f, items[1..])
  }

  function MapFields<S, T>(f: S -> T, fields: seq<Field<S>>): (r: seq<Field<T>>)
    ensures |r| == |fields|
    decreases fields
  {
    if fields == [] then []
    else [Field(fields[0].key, MapDoc(f, fields[0].value))] + MapFields(f, fields[1..])
  }

  lemma {:induction false} MapItemsAt<S, T>(f: S -> T, items: seq<Doc<S>>, i: nat)
    requires i < |items|
    ensures MapItems(f, items)[i] == MapDoc(f, items[i])
    ensures MapItems(f, items[..i + 1]) == MapItems(f, items[..i]) + [MapDoc(f, items[i])]
  {
    if i == 0 {
      assert items[..1][1..] == [];
    } else {
      assert items[..i + 1][1..] == items[1..][..i] && items[..i][1..] == items[1..][..i - 1];
      MapItemsAt(f, items[1..], i - 1);
    }
  }

  lemma {:induction false} MapFieldsAt<S, T>(f: S -> T, fields: seq<Field<S>>, i: nat)
    requires i < |fields|
    ensures MapFields(f, fields)[i] == Field(fields[i].key, MapDoc(f, fields[i].value))
    ensures MapFields(f, fields[..i + 1]) ==
            MapFields(f, fields[..i]) + [Field(fields[i].key, MapDoc(f, fields[i].value))]
  {
    if i == 0 {
      assert fields[..1][1..] == [];
    } else {
      assert fields[..i + 1][1..] == fields[1..][..i] && fields[..i][1..] == fields[1..][..i - 1];
      MapFieldsAt(f, fields[1..], i - 1);
    }
  }

  /** Following a path commutes with converting. */
  lemma {:induction false} AtMap<S, T>(f: S -> T, d: Doc<S>, path: Path)
    ensures At(MapDoc(f, d), path) ==
            match At(d, path) { case None => None case Some(x) => Some(MapDoc(f, x)) }
    decreases path
  {
    if path != [] {
      match d
      case Scalar(_) =>
      case Array(items) =>
        if path[0].Index? && path[0].index < |items| {
          MapItemsAt(f, items, path[0].index);
          AtMap(f, items[path[0].index], path[1..]);
        }
      case Object(fields) =>
        if path[0].Key? {
          LookupMap(f, fields, path[0].key);
          if Lookup(fields, path[0].key).Some? {
            AtMap(f, Lookup(fields, path[0].key).value, path[1..]);
          }
        }
    }
  }

  lemma {:induction false} LookupMap<S, T>(f: S -> T, fields: seq<Field<S>>, key: string)
    ensures Lookup(MapFields(f, fields), key) ==
            match Lookup(fields, key) { case None => None case Some(x) => Some(MapDoc(f, x)) }
  {
    if fields != [] {
      LookupMap(f, fields[1..], key);
    }
  }
}
