/**
 * The record flattener `TableNormalizer.toFlat`, reached through
 * `normalize`. It walks a value depth first over `Object.keys`, descends
 * into every member whose `typeof` is "object" (nested objects, arrays and
 * `null`), turns every other member `k: v` into a one-key fragment
 * `{[k]: v}`, and merges all fragments left to right into a fresh `{}` with
 * `Object.assign`. Keys are the leaf field names alone (or array indices),
 * never paths, so a later leaf overwrites an earlier one with the same name.
 * `Object.keys(null)` throws, so a `null` anywhere on the walk makes the
 * whole call throw.
 */
module TableNormalizer {
  import opened Wrappers

  /** A value whose `typeof` is not "object"; numbers are modelled as integers. */
  datatype Prim = PString(s: string) | PNumber(n: int) | PBoolean(b: bool) | PUndefined

  /**
   * A plain JavaScript value. An object lists its own enumerable members in
   * `Object.keys` order; an array's keys are its indices.
   */
  datatype Value = Scalar(p: Prim) | Obj(fields: seq<(string, Value)>) | Arr(elems: seq<Value>) | Null

  /** The `TypeError` that `Object.keys` throws for `null` and `undefined`. */
  datatype JsError = TypeError

  /** A one-key object `{[k]: v}` built for one leaf. */
  type Fragment = (string, Prim)

  /** The merged result: each key with the value last assigned to it. */
  type FlatRecord = map<string, Prim>

  /** `typeof v === "object"`: true of objects, arrays and `null`. */
  predicate IsObject(v: Value)
  {
    !v.Scalar?
  }

  /** The value of the decimal digit `c`. */
  function DigitValue(c: char): nat
    requires '0' <= c <= '9'
  {
    c as int - '0' as int
  }

  /** The number a string of decimal digits denotes, most significant digit first. */
  function DecimalValue(s: string): nat
    requires forall j :: 0 <= j < |s| ==> '0' <= s[j] <= '9'
  {
    if s == [] then 0 else DecimalValue(s[..|s| - 1]) * 10 + DigitValue(s[|s| - 1])
  }

  /**
   * The key `Object.keys` gives the element at index `i`: the canonical
   * decimal numeral of `i`, digits only, denoting `i`, with no leading zero.
   */
  function IndexKey(i: nat): (key: string)
    ensures |key| >= 1 && forall j :: 0 <= j < |key| ==> '0' <= key[j] <= '9'
    ensures DecimalValue(key) == i
    ensures |key| > 1 ==> key[0] != '0'
  {
    if i < 10 then
      var key := ["0123456789"[i]];
      assert key[..0] == [];
      key
    else
      var high := IndexKey(i / 10);
      var key := high + ["0123456789"[i % 10]];
      assert key[..|key| - 1] == high;
      assert key[0] == high[0];
      key
  }

  /** Different elements of one array get different keys. */
  lemma IndexKeyInjective(i: nat, j: nat)
    requires i != j
    ensures IndexKey(i) != IndexKey(j)
  {
  }

  /** The fragments of one walk, or the exception of the first part that threw. */
  function Concat(a: Result<seq<Fragment>, JsError>, b: Result<seq<Fragment>, JsError>): Result<seq<Fragment>, JsError>
  {
    if a.Failure? then a else if b.Failure? then b else Success(a.value + b.value)
  }

  /** `flatten(x)`: the fragments of all leaves below `x`, in depth-first `Object.keys` order. */
  function Flatten(x: Value): Result<seq<Fragment>, JsError>
    decreases x, 0
  {
    match x
    case Null => Failure(TypeError)
    case Scalar(PUndefined) => Failure(TypeError)
    case Scalar(PString(s)) => Success(CharFragments(s))
    case Scalar(_) => Success([])
    case Obj(fields) => FlattenFields(fields)
    case Arr(elems) => FlattenElems(elems, 0)
  }

  /** `Object.keys` of a string lists its indices; each member is a one-character string. */
  function CharFragments(s: string): seq<Fragment>
  {
    seq(|s|, i requires 0 <= i < |s| => (IndexKey(i), PString([s[i]])))
  }

  /** The callback for member `k` with value `v`: recurse into an object, else one fragment. */
  function FlattenMember(k: string, v: Value): Result<seq<Fragment>, JsError>
    decreases v, 1
  {
    if IsObject(v) then Flatten(v) else Success([(k, v.p)])
  }

  /** The members of an object, in order. */
  function FlattenFields(fields: seq<(string, Value)>): Result<seq<Fragment>, JsError>
    decreases fields, 0
  {
    if fields == [] then Success([])
    else
      assert fields[0] in fields && fields[0].1 < fields[0];
      Concat(FlattenMember(fields[0].0, fields[0].1), FlattenFields(fields[1..]))
  }

  /** The elements of an array from index `i` on, keyed by their indices. */
  function FlattenElems(elems: seq<Value>, i: nat): Result<seq<Fragment>, JsError>
    requires i <= |elems|
    decreases elems, |elems| - i
  {
    if i == |elems| then Success([])
    else Concat(FlattenMember(IndexKey(i), elems[i]), FlattenElems(elems, i + 1))
  }

  /** `Object.assign(target, ...frags)`: each fragment in turn overwrites its key. */
  function Assign(target: FlatRecord, frags: seq<Fragment>): FlatRecord
    decreases |frags|
  {
    if frags == [] then target else Assign(target[frags[0].0 := frags[0].1], frags[1..])
  }

  /** `toFlat(x)`: the fragments of `x` merged into a fresh `{}`. */
  function ToFlat(x: Value): Result<FlatRecord, JsError>
  {
    match Flatten(x)
    case Failure(e) => Failure(e)
    case Success(frags) => Success(Assign(map[], frags))
  }

  /**
   * `normalize(data)`: delegates to `toFlat`, so it throws exactly when the
   * walk meets `null` or `undefined`, and otherwise every key of the record
   * is a leaf below `data` holding that leaf's value.
   */
  function Normalize(data: Value): (r: Result<FlatRecord, JsError>)
    ensures r == ToFlat(data)
    ensures r.Failure? <==> WalkThrows(data)
    ensures r.Success? ==> forall k :: k in r.value ==> HasLeaf(data, k, r.value[k])
    ensures r.Success? ==> forall k, p :: HasLeaf(data, k, p) ==> k in r.value
  {
    ToFlatThrowsIff(data);
    if ToFlat(data).Success? then
      ToFlatLeaves(data);
      ToFlat(data)
    else
      ToFlat(data)
  }

  /** `denormalize(data)`: an empty body, which returns `undefined` whatever the input. */
  function Denormalize<T>(data: T): ()
  {
    ()
  }

  // ---------------------------------------------------------------------
  // Reference definitions: what the walk reaches, stated without the walk.

  /** `x` has, somewhere below it, a leaf member named `k` holding `p`. */
  ghost predicate HasLeaf(x: Value, k: string, p: Prim)
    decreases x, 0
  {
    match x
    case Obj(fields) => exists i :: 0 <= i < |fields| && MemberHasLeaf(fields[i].0, fields[i].1, k, p)
    case Arr(elems) => exists i :: 0 <= i < |elems| && MemberHasLeaf(IndexKey(i), elems[i], k, p)
    case Scalar(PString(s)) => exists i :: 0 <= i < |s| && k == IndexKey(i) && p == PString([s[i]])
    case _ => false
  }

  /** The member `key: v` is the leaf `k: p`, or `v` is an object with such a leaf below it. */
  ghost predicate MemberHasLeaf(key: string, v: Value, k: string, p: Prim)
    decreases v, 1
  {
    if IsObject(v) then HasLeaf(v, k, p) else key == k && v == Scalar(p)
  }

  /** The walk calls `Object.keys` on `null` or `undefined` somewhere. */
  ghost predicate WalkThrows(x: Value)
    decreases x, 0
  {
    match x
    case Null => true
    case Scalar(p) => p.PUndefined?
    case Obj(fields) => exists i :: 0 <= i < |fields| && MemberThrows(fields[i].1)
    case Arr(elems) => exists i :: 0 <= i < |elems| && MemberThrows(elems[i])
  }

  /** The member value is descended into and its walk throws. */
  ghost predicate MemberThrows(v: Value)
    decreases v, 1
  {
    IsObject(v) && WalkThrows(v)
  }

  /** The array `elems` has, at an index from `i` on, a member with the leaf `k: p` at or below it. */
  ghost predicate ElemsHaveLeaf(elems: seq<Value>, i: nat, k: string, p: Prim)
  {
    exists j :: i <= j < |elems| && MemberHasLeaf(IndexKey(j), elems[j], k, p)
  }

  // ---------------------------------------------------------------------
  // When the walk throws.

  /** Flattening throws exactly when the walk meets `null` or `undefined` as an object to list. */
  lemma {:induction false} FlattenThrowsIff(x: Value)
    ensures Flatten(x).Failure? <==> WalkThrows(x)
    decreases x, 0
  {
    match x
    case Obj(fields) => FieldsThrowIff(fields);
    case Arr(elems) => ElemsThrowIff(elems, 0);
    case _ =>
  }

  lemma {:induction false} MemberThrowsIff(k: string, v: Value)
    ensures FlattenMember(k, v).Failure? <==> MemberThrows(v)
    decreases v, 1
  {
    if IsObject(v) {
      FlattenThrowsIff(v);
    }
  }

  lemma {:induction false} FieldsThrowIff(fields: seq<(string, Value)>)
    ensures FlattenFields(fields).Failure? <==> WalkThrows(Obj(fields))
    decreases fields, 0
  {
    if fields != [] {
      assert fields[0] in fields && fields[0].1 < fields[0];
      MemberThrowsIff(fields[0].0, fields[0].1);
      FieldsThrowIff(fields[1..]);
      if WalkThrows(Obj(fields)) && !MemberThrows(fields[0].1) {
        var i :| 0 <= i < |fields| && MemberThrows(fields[i].1);
        assert fields[1..][i - 1] == fields[i];
      }
      if WalkThrows(Obj(fields[1..])) {
        var i :| 0 <= i < |fields[1..]| && MemberThrows(fields[1..][i].1);
        assert fields[i + 1] == fields[1..][i];
      }
    }
  }

  lemma {:induction false} ElemsThrowIff(elems: seq<Value>, i: nat)
    requires i <= |elems|
    ensures FlattenElems(elems, i).Failure? <==> exists j :: i <= j < |elems| && MemberThrows(elems[j])
    decreases elems, |elems| - i
  {
    if i < |elems| {
      MemberThrowsIff(IndexKey(i), elems[i]);
      ElemsThrowIff(elems, i + 1);
    }
  }

  /**
   * `toFlat(x)` throws exactly when `x` is `null` or `undefined`, or a
   * `null` sits anywhere below it (a nested `undefined` is a plain leaf);
   * on every other input it returns a record.
   */
  lemma ToFlatThrowsIff(x: Value)
    ensures ToFlat(x).Failure? <==> WalkThrows(x)
  {
    FlattenThrowsIff(x);
  }

  // ---------------------------------------------------------------------
  // What the fragments are.

  /** The fragments of a walk that returns are exactly the leaves below `x`. */
  lemma {:induction false} FlattenLeaves(x: Value)
    requires Flatten(x).Success?
    ensures forall j :: 0 <= j < |Flatten(x).value| ==> HasLeaf(x, Flatten(x).value[j].0, Flatten(x).value[j].1)
    ensures forall k, p :: HasLeaf(x, k, p) ==> (k, p) in Flatten(x).value
    decreases x, 0
  {
    match x
    case Obj(fields) => FieldsLeaves(fields);
    case Arr(elems) =>
      ElemsLeaves(elems, 0);
      forall k, p | HasLeaf(x, k, p) ensures ElemsHaveLeaf(elems, 0, k, p) {
      }
    case Scalar(PString(s)) =>
      var f := Flatten(x).value;
      forall k, p | HasLeaf(x, k, p) ensures (k, p) in f {
        var i :| 0 <= i < |s| && k == IndexKey(i) && p == PString([s[i]]);
        assert f[i] == (k, p);
      }
    case _ =>
  }

  lemma {:induction false} MemberLeaves(key: string, v: Value)
    requires FlattenMember(key, v).Success?
    ensures forall j :: 0 <= j < |FlattenMember(key, v).value| ==>
              MemberHasLeaf(key, v, FlattenMember(key, v).value[j].0, FlattenMember(key, v).value[j].1)
    ensures forall k, p :: MemberHasLeaf(key, v, k, p) ==> (k, p) in FlattenMember(key, v).value
    decreases v, 1
  {
    if IsObject(v) {
      FlattenLeaves(v);
    }
  }

  lemma {:induction false} FieldsLeaves(fields: seq<(string, Value)>)
    requires FlattenFields(fields).Success?
    ensures forall j :: 0 <= j < |FlattenFields(fields).value| ==>
              HasLeaf(Obj(fields), FlattenFields(fields).value[j].0, FlattenFields(fields).value[j].1)
    ensures forall k, p :: HasLeaf(Obj(fields), k, p) ==> (k, p) in FlattenFields(fields).value
    decreases fields, 0
  {
    if fields != [] {
      assert fields[0] in fields && fields[0].1 < fields[0];
      var (k0, v0) := fields[0];
      var rest := fields[1..];
      MemberLeaves(k0, v0);
      FieldsLeaves(rest);
      var h: seq<Fragment> := FlattenMember(k0, v0).value;
      var t: seq<Fragment> := FlattenFields(rest).value;
      assert FlattenFields(fields).value == h + t;
      forall j | 0 <= j < |h + t| ensures HasLeaf(Obj(fields), (h + t)[j].0, (h + t)[j].1) {
        if j < |h| {
          assert MemberHasLeaf(fields[0].0, fields[0].1, (h + t)[j].0, (h + t)[j].1);
        } else {
          assert (h + t)[j] == t[j - |h|];
          var i :| 0 <= i < |rest| && MemberHasLeaf(rest[i].0, rest[i].1, t[j - |h|].0, t[j - |h|].1);
          assert rest[i] == fields[i + 1];
        }
      }
      forall k, p | HasLeaf(Obj(fields), k, p) ensures (k, p) in h + t {
        var i :| 0 <= i < |fields| && MemberHasLeaf(fields[i].0, fields[i].1, k, p);
        if i > 0 {
          assert rest[i - 1] == fields[i];
          assert HasLeaf(Obj(rest), k, p);
        }
      }
    }
  }

  lemma {:induction false} ElemsLeaves(elems: seq<Value>, i: nat)
    requires i <= |elems|
    requires FlattenElems(elems, i).Success?
    ensures forall j :: 0 <= j < |FlattenElems(elems, i).value| ==>
              ElemsHaveLeaf(elems, i, FlattenElems(elems, i).value[j].0, FlattenElems(elems, i).value[j].1)
    ensures forall k, p :: ElemsHaveLeaf(elems, i, k, p) ==> (k, p) in FlattenElems(elems, i).value
    decreases elems, |elems| - i
  {
    if i < |elems| {
      MemberLeaves(IndexKey(i), elems[i]);
      ElemsLeaves(elems, i + 1);
      var h: seq<Fragment> := FlattenMember(IndexKey(i), elems[i]).value;
      var t: seq<Fragment> := FlattenElems(elems, i + 1).value;
      forall j | 0 <= j < |h + t| ensures ElemsHaveLeaf(elems, i, (h + t)[j].0, (h + t)[j].1) {
        if j < |h| {
          assert MemberHasLeaf(IndexKey(i), elems[i], (h + t)[j].0, (h + t)[j].1);
        } else {
          assert (h + t)[j] == t[j - |h|];
        }
      }
      forall k, p | ElemsHaveLeaf(elems, i, k, p) ensures (k, p) in h + t {
        var j :| i <= j < |elems| && MemberHasLeaf(IndexKey(j), elems[j], k, p);
        if j > i {
          assert ElemsHaveLeaf(elems, i + 1, k, p);
        }
      }
    }
  }

  // ---------------------------------------------------------------------
  // The merge: Object.assign, left to right.

  /** A key is in the merged record exactly when the target or some fragment has it. */
  lemma {:induction false} AssignKeys(target: FlatRecord, frags: seq<Fragment>)
    ensures forall k :: k in Assign(target, frags) <==> k in target || exists j :: 0 <= j < |frags| && frags[j].0 == k
    decreases |frags|
  {
    if frags != [] {
      AssignKeys(target[frags[0].0 := frags[0].1], frags[1..]);
      forall k | exists j :: 0 <= j < |frags| && frags[j].0 == k
        ensures k in Assign(target, frags)
      {
        var j :| 0 <= j < |frags| && frags[j].0 == k;
        if j > 0 {
          assert frags[1..][j - 1].0 == k;
        }
      }
      forall k | k in Assign(target, frags) && k !in target && k != frags[0].0
        ensures exists j :: 0 <= j < |frags| && frags[j].0 == k
      {
        assert k !in target[frags[0].0 := frags[0].1];
        var j :| 0 <= j < |frags[1..]| && frags[1..][j].0 == k;
        assert frags[j + 1].0 == k;
      }
    }
  }

  /** A key no fragment has keeps the target's value. */
  lemma {:induction false} AssignUntouched(target: FlatRecord, frags: seq<Fragment>, k: string)
    requires k in target
    requires forall j :: 0 <= j < |frags| ==> frags[j].0 != k
    ensures k in Assign(target, frags) && Assign(target, frags)[k] == target[k]
    decreases |frags|
  {
    if frags != [] {
      AssignUntouched(target[frags[0].0 := frags[0].1], frags[1..], k);
    }
  }

  /** Last write wins: a key ends up with the value of the last fragment that has it. */
  lemma {:induction false} AssignLastWins(target: FlatRecord, frags: seq<Fragment>, j: nat)
    requires j < |frags|
    requires forall l :: j < l < |frags| ==> frags[l].0 != frags[j].0
    ensures frags[j].0 in Assign(target, frags) && Assign(target, frags)[frags[j].0] == frags[j].1
    decreases |frags|
  {
    var next := target[frags[0].0 := frags[0].1];
    if j == 0 {
      AssignUntouched(next, frags[1..], frags[0].0);
    } else {
      AssignLastWins(next, frags[1..], j - 1);
    }
  }

  /** Every value of the merged record is the target's or one of the fragments'. */
  lemma {:induction false} AssignValueFrom(target: FlatRecord, frags: seq<Fragment>, k: string)
    requires k in Assign(target, frags)
    ensures (k in target && Assign(target, frags)[k] == target[k])
            || exists j :: 0 <= j < |frags| && frags[j] == (k, Assign(target, frags)[k])
    decreases |frags|
  {
    if frags != [] {
      var next := target[frags[0].0 := frags[0].1];
      AssignValueFrom(next, frags[1..], k);
      if exists j :: 0 <= j < |frags[1..]| && frags[1..][j] == (k, Assign(target, frags)[k]) {
        var j :| 0 <= j < |frags[1..]| && frags[1..][j] == (k, Assign(target, frags)[k]);
        assert frags[j + 1] == frags[1..][j];
      }
    }
  }

  /**
   * Every key of `toFlat(x)` is the name (or array index) of a leaf below
   * `x`, holding that leaf's value unchanged, and every leaf name below `x`
   * is a key of the result: no path prefix is ever added or dropped.
   */
  lemma ToFlatLeaves(x: Value)
    requires ToFlat(x).Success?
    ensures forall k :: k in ToFlat(x).value ==> HasLeaf(x, k, ToFlat(x).value[k])
    ensures forall k, p :: HasLeaf(x, k, p) ==> k in ToFlat(x).value
  {
    var frags := Flatten(x).value;
    var m := ToFlat(x).value;
    FlattenLeaves(x);
    AssignKeys(map[], frags);
    forall k | k in m ensures HasLeaf(x, k, m[k]) {
      AssignValueFrom(map[], frags, k);
      var j :| 0 <= j < |frags| && frags[j] == (k, m[k]);
    }
    forall k, p | HasLeaf(x, k, p) ensures k in m {
      var j :| 0 <= j < |frags| && frags[j] == (k, p);
    }
  }

  /**
   * Within `toFlat(x)`, the value of each key is the one carried by the
   * last leaf with that name in depth-first `Object.keys` order.
   */
  lemma ToFlatLastLeafWins(x: Value, j: nat)
    requires Flatten(x).Success? && j < |Flatten(x).value|
    requires forall l :: j < l < |Flatten(x).value| ==> Flatten(x).value[l].0 != Flatten(x).value[j].0
    ensures ToFlat(x).Success? && Flatten(x).value[j].0 in ToFlat(x).value
    ensures ToFlat(x).value[Flatten(x).value[j].0] == Flatten(x).value[j].1
  {
    AssignLastWins(map[], Flatten(x).value, j);
  }

  // ---------------------------------------------------------------------
  // Flat records and empty containers.

  /** All members are leaves and no two share a name. */
  ghost predicate IsFlatRecord(fields: seq<(string, Value)>)
  {
    (forall i :: 0 <= i < |fields| ==> fields[i].1.Scalar?)
    && (forall i, j :: 0 <= i < j < |fields| ==> fields[i].0 != fields[j].0)
  }

  /** An object whose members are all leaves flattens to one fragment per member, in order. */
  lemma {:induction false} FlattenLeafFields(fields: seq<(string, Value)>)
    requires forall i :: 0 <= i < |fields| ==> fields[i].1.Scalar?
    ensures FlattenFields(fields).Success?
    ensures |FlattenFields(fields).value| == |fields|
    ensures forall i :: 0 <= i < |fields| ==> FlattenFields(fields).value[i] == (fields[i].0, fields[i].1.p)
  {
    if fields != [] {
      FlattenLeafFields(fields[1..]);
    }
  }

  /** Flattening an already flat record gives back its own keys and values. */
  lemma ToFlatOfFlatRecord(fields: seq<(string, Value)>)
    requires IsFlatRecord(fields)
    ensures ToFlat(Obj(fields)).Success?
    ensures forall k :: k in ToFlat(Obj(fields)).value <==> exists i :: 0 <= i < |fields| && fields[i].0 == k
    ensures forall i :: 0 <= i < |fields| ==> ToFlat(Obj(fields)).value[fields[i].0] == fields[i].1.p
  {
    FlattenLeafFields(fields);
    var frags := FlattenFields(fields).value;
    AssignKeys(map[], frags);
    forall k ensures k in Assign(map[], frags) <==> exists i :: 0 <= i < |fields| && fields[i].0 == k {
      if exists j :: 0 <= j < |frags| && frags[j].0 == k {
        var j :| 0 <= j < |frags| && frags[j].0 == k;
        assert fields[j].0 == k;
      }
      if exists i :: 0 <= i < |fields| && fields[i].0 == k {
        var i :| 0 <= i < |fields| && fields[i].0 == k;
        assert frags[i].0 == k;
      }
    }
    forall i | 0 <= i < |fields| ensures Assign(map[], frags)[fields[i].0] == fields[i].1.p {
      AssignLastWins(map[], frags, i);
    }
  }

  /** `fields` lists the record `m`: one leaf member per key of `m`, with its value. */
  ghost predicate Lists(fields: seq<(string, Value)>, m: FlatRecord)
  {
    IsFlatRecord(fields)
    && (forall i :: 0 <= i < |fields| ==> fields[i].0 in m && fields[i].1 == Scalar(m[fields[i].0]))
    && (forall k :: k in m ==> exists i :: 0 <= i < |fields| && fields[i].0 == k)
  }

  /** Flattening the result of `toFlat` again, written out as an object, changes nothing. */
  lemma ReflattenIsNoOp(x: Value, fields: seq<(string, Value)>)
    requires ToFlat(x).Success? && Lists(fields, ToFlat(x).value)
    ensures ToFlat(Obj(fields)) == ToFlat(x)
  {
    var m := ToFlat(x).value;
    ToFlatOfFlatRecord(fields);
    var r := ToFlat(Obj(fields)).value;
    forall k ensures k in r <==> k in m {
      if k in r {
        var i :| 0 <= i < |fields| && fields[i].0 == k;
      }
    }
    forall k | k in m ensures r[k] == m[k] {
      var i :| 0 <= i < |fields| && fields[i].0 == k;
    }
    assert r == m;
  }

  /** Joining walk results is associative, exceptions included. */
  lemma ConcatAssociative(a: Result<seq<Fragment>, JsError>, b: Result<seq<Fragment>, JsError>, c: Result<seq<Fragment>, JsError>)
    ensures Concat(Concat(a, b), c) == Concat(a, Concat(b, c))
  {
    if a.Success? && b.Success? && c.Success? {
      assert (a.value + b.value) + c.value == a.value + (b.value + c.value);
    }
  }

  /** The members of `a + b` flatten to those of `a` followed by those of `b`. */
  lemma {:induction false} FlattenFieldsAppend(a: seq<(string, Value)>, b: seq<(string, Value)>)
    ensures FlattenFields(a + b) == Concat(FlattenFields(a), FlattenFields(b))
  {
    if a == [] {
      assert a + b == b;
      if FlattenFields(b).Success? {
        assert [] + FlattenFields(b).value == FlattenFields(b).value;
      }
    } else {
      assert (a + b)[0] == a[0] && (a + b)[1..] == a[1..] + b;
      FlattenFieldsAppend(a[1..], b);
      ConcatAssociative(FlattenMember(a[0].0, a[0].1), FlattenFields(a[1..]), FlattenFields(b));
    }
  }

  /** A member holding an empty object or an empty array contributes no keys. */
  lemma EmptyContainerAddsNothing(before: seq<(string, Value)>, k: string, c: Value, after: seq<(string, Value)>)
    requires c == Obj([]) || c == Arr([])
    ensures Flatten(Obj(before + [(k, c)] + after)) == Flatten(Obj(before + after))
  {
    var b := FlattenFields(before);
    assert FlattenFields([(k, c)]) == Success([]) by {
      assert [(k, c)][1..] == [];
      assert Flatten(c) == Success([]);
      assert FlattenMember(k, c) == Success([]);
      var none: seq<Fragment> := [];
      assert none + none == none;
    }
    calc {
      Flatten(Obj(before + [(k, c)] + after));
      FlattenFields(before + [(k, c)] + after);
      { FlattenFieldsAppend(before + [(k, c)], after); }
      Concat(FlattenFields(before + [(k, c)]), FlattenFields(after));
      { FlattenFieldsAppend(before, [(k, c)]); }
      Concat(Concat(b, Success([])), FlattenFields(after));
      { if b.Success? { assert b.value + [] == b.value; } }
      Concat(b, FlattenFields(after));
      { FlattenFieldsAppend(before, after); }
      FlattenFields(before + after);
    }
  }

  // ---------------------------------------------------------------------
  // Examples.

  /** Nested members keep their own names: `meta.album` becomes `album`. */
  lemma NestedKeysAreNotDotted(x: Value)
    requires x == Obj([("title", Scalar(PString("T"))),
                       ("meta", Obj([("album", Scalar(PString("A"))), ("year", Scalar(PNumber(2000)))]))])
    ensures ToFlat(x) == Success(map["title" := PString("T"), "album" := PString("A"), "year" := PNumber(2000)])
  {
  }

  /** A nested leaf overwrites an earlier leaf of the same name. */
  lemma NestedLeafOverwritesEarlierOne(x: Value)
    requires x == Obj([("id", Scalar(PNumber(1))), ("child", Obj([("id", Scalar(PNumber(2)))]))])
    ensures ToFlat(x) == Success(map["id" := PNumber(2)])
  {
    assert map["id" := PNumber(1)]["id" := PNumber(2)] == map["id" := PNumber(2)];
  }

  /** Array elements are walked like members, keyed by their indices. */
  lemma ArrayIndicesBecomeKeys(x: Value)
    requires x == Obj([("tags", Arr([Scalar(PString("x")), Scalar(PString("y"))]))])
    ensures ToFlat(x) == Success(map["0" := PString("x"), "1" := PString("y")])
  {
  }

  /** A `null` member makes the call throw. */
  lemma NullMemberThrows(x: Value)
    requires x == Obj([("a", Scalar(PNumber(1))), ("b", Null)])
    ensures ToFlat(x) == Failure(TypeError)
  {
  }
}
