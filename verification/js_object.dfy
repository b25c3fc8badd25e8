/** A JavaScript object as the null-stripping helpers see it: the sequence of
    its own enumerable properties in `Object.entries` order, with values from a
    small universe. `removeNulls` and `removeNullsExcept` build a fresh object
    by assigning one property per entry. */
module JsObject {

  /** Numbers are kept as integers: the helpers only copy them. */
  datatype Value =
    | Null
    | Undefined
    | Bool(b: bool)
    | Num(n: int)
    | Str(s: string)
    | Arr(items: seq<Value>)
    | Obj(props: seq<Prop>)

  datatype Prop = Prop(key: string, value: Value)

  function Keys(o: seq<Prop>): (ks: seq<string>)
    ensures |ks| == |o|
    ensures forall i :: 0 <= i < |o| ==> ks[i] == o[i].key
  {
    seq(|o|, i requires 0 <= i < |o| => o[i].key)
  }

  /** Every JavaScript object has distinct property names. */
  predicate DistinctKeys(o: seq<Prop>) {
    forall i, j :: 0 <= i < j < |o| ==> o[i].key != o[j].key
  }

  /** `o[k]`: the value of property `k`, or `undefined` when there is none. */
  function Lookup(o: seq<Prop>, k: string): (v: Value)
    ensures k !in Keys(o) ==> v == Undefined
  {
    if o == [] then Undefined
    else if o[0].key == k then o[0].value
    else
      assert Keys(o) == [o[0].key] + Keys(o[1..]);
      Lookup(o[1..], k)
  }

  /** In an object with distinct keys, a property's value is what lookup
      finds under its key. */
  lemma {:induction false} LookupFindsProp(o: seq<Prop>, i: nat)
    requires DistinctKeys(o) && i < |o|
    ensures Lookup(o, o[i].key) == o[i].value
  {
    if i > 0 {
      assert o[0].key != o[i].key;
      LookupFindsProp(o[1..], i - 1);
    }
  }

  /** `o[k] = v`: overwrites an existing property in place, or adds a new one
      at the end. */
  function Assign(o: seq<Prop>, k: string, v: Value): (r: seq<Prop>)
    ensures k in Keys(o) ==> Keys(r) == Keys(o) && Lookup(r, k) == v
    ensures k in Keys(o) ==> forall j :: 0 <= j < |o| && o[j].key != k ==> r[j] == o[j]
    ensures k !in Keys(o) ==> r == o + [Prop(k, v)]
  {
    if o == [] then [Prop(k, v)]
    else if o[0].key == k then [Prop(k, v)] + o[1..]
    else
      assert Keys(o) == [o[0].key] + Keys(o[1..]);
      [o[0]] + Assign(o[1..], k, v)
  }

  /** `value ?? undefined`: only `null` (and `undefined`) are replaced. */
  function Coalesce(v: Value): (r: Value)
    ensures r != Null
    ensures v != Null ==> r == v
  {
    if v == Null then Undefined else v
  }

  /** What `removeNulls` returns for `o`. */
  function WithoutNulls(o: seq<Prop>): (r: seq<Prop>)
    ensures Keys(r) == Keys(o)
    ensures forall i :: 0 <= i < |o| ==> r[i].value == (if o[i].value == Null then Undefined else o[i].value)
    decreases |o|
  {
    if o == [] then []
    else
      var last := o[|o| - 1];
      WithoutNulls(o[..|o| - 1]) + [Prop(last.key, Coalesce(last.value))]
  }

  /** True when the allow-list's entry for `k` is `=== true`. */
  predicate Allowed(allowNulls: seq<Prop>, k: string): (b: bool)
    ensures b ==> k in Keys(allowNulls)
  {
    Lookup(allowNulls, k) == Bool(true)
  }

  /** What `removeNullsExcept` returns for `o` and the allow-list `allowNulls`. */
  function WithoutNullsExcept(o: seq<Prop>, allowNulls: seq<Prop>): (r: seq<Prop>)
    ensures Keys(r) == Keys(o)
    ensures forall i :: 0 <= i < |o| ==>
      r[i].value == (if Allowed(allowNulls, o[i].key) || o[i].value != Null then o[i].value else Undefined)
    decreases |o|
  {
    if o == [] then []
    else
      var last := o[|o| - 1];
      var v := if Allowed(allowNulls, last.key) then last.value else Coalesce(last.value);
      WithoutNullsExcept(o[..|o| - 1], allowNulls) + [Prop(last.key, v)]
  }

  /** The loop of `removeNulls`: one assignment per entry of the input. */
  method RemoveNulls(input: seq<Prop>) returns (result: seq<Prop>)
    requires DistinctKeys(input)
    ensures result == WithoutNulls(input)
  {
    result := [];
    for i := 0 to |input|
      invariant result == WithoutNulls(input[..i])
    {
      var key, value := input[i].key, input[i].value;
      assert key !in Keys(input[..i]);
      result := Assign(result, key, Coalesce(value));
      assert input[..i + 1][..i] == input[..i];
    }
    assert input[..|input|] == input;
  }

  /** The loop of `removeNullsExcept`. */
  method RemoveNullsExcept(input: seq<Prop>, allowNulls: seq<Prop>) returns (result: seq<Prop>)
    requires DistinctKeys(input)
    ensures result == WithoutNullsExcept(input, allowNulls)
  {
    result := [];
    for i := 0 to |input|
      invariant result == WithoutNullsExcept(input[..i], allowNulls)
    {
      var key, value := input[i].key, input[i].value;
      assert key !in Keys(input[..i]);
      if Lookup(allowNulls, key) == Bool(true) {
        result := Assign(result, key, value);
      } else {
        result := Assign(result, key, Coalesce(value));
      }
      assert input[..i + 1][..i] == input[..i];
    }
    assert input[..|input|] == input;
  }

  /** No `null` survives `removeNulls`. */
  lemma NoNullsRemain(o: seq<Prop>)
    ensures forall i :: 0 <= i < |WithoutNulls(o)| ==> WithoutNulls(o)[i].value != Null
  {
  }

  /** The output is again an object: its property names stay distinct. */
  lemma WithoutNullsKeepsDistinctKeys(o: seq<Prop>)
    requires DistinctKeys(o)
    ensures DistinctKeys(WithoutNulls(o))
  {
    var r := WithoutNulls(o);
    assert forall i :: 0 <= i < |o| ==> r[i].key == Keys(r)[i] == Keys(o)[i];
  }

  /** Reading a property after `removeNulls` gives `undefined` where the
      input held `null` or nothing, and the input's value otherwise. */
  lemma LookupWithoutNulls(o: seq<Prop>, k: string)
    requires DistinctKeys(o)
    ensures Lookup(WithoutNulls(o), k) == Coalesce(Lookup(o, k))
  {
    var r := WithoutNulls(o);
    if k in Keys(o) {
      var i :| 0 <= i < |o| && Keys(o)[i] == k;
      WithoutNullsKeepsDistinctKeys(o);
      LookupFindsProp(o, i);
      assert r[i].key == Keys(r)[i];
      LookupFindsProp(r, i);
    } else {
      assert k !in Keys(r);
    }
  }

  /** `removeNulls` changes an object exactly when it holds a `null`. */
  lemma WithoutNullsFixedPoints(o: seq<Prop>)
    ensures WithoutNulls(o) == o <==> forall i :: 0 <= i < |o| ==> o[i].value != Null
  {
    var r := WithoutNulls(o);
    if forall i :: 0 <= i < |o| ==> o[i].value != Null {
      forall i | 0 <= i < |o| ensures r[i] == o[i] {
        assert r[i].key == Keys(r)[i] == Keys(o)[i];
      }
    }
  }

  /** `removeNulls` is idempotent. */
  lemma WithoutNullsIdempotent(o: seq<Prop>)
    ensures WithoutNulls(WithoutNulls(o)) == WithoutNulls(o)
  {
    WithoutNullsFixedPoints(WithoutNulls(o));
  }

  /** With an allow-list that has no `true` entry, `removeNullsExcept` is
      `removeNulls`. */
  lemma {:induction false} ExceptWithoutAllowedIsWithoutNulls(o: seq<Prop>, allowNulls: seq<Prop>)
    requires forall i :: 0 <= i < |allowNulls| ==> allowNulls[i].value != Bool(true)
    ensures WithoutNullsExcept(o, allowNulls) == WithoutNulls(o)
    decreases |o|
  {
    if o != [] {
      AllowedNeedsTrueEntry(allowNulls, o[|o| - 1].key);
      ExceptWithoutAllowedIsWithoutNulls(o[..|o| - 1], allowNulls);
    }
  }

  /** A key is allowed only through an entry whose value is `true`. */
  lemma {:induction false} AllowedNeedsTrueEntry(allowNulls: seq<Prop>, k: string)
    ensures Allowed(allowNulls, k) ==>
      exists i :: 0 <= i < |allowNulls| && allowNulls[i] == Prop(k, Bool(true))
  {
    if allowNulls != [] && allowNulls[0].key != k && Allowed(allowNulls, k) {
      AllowedNeedsTrueEntry(allowNulls[1..], k);
      var i :| 0 <= i < |allowNulls[1..]| && allowNulls[1..][i] == Prop(k, Bool(true));
      assert allowNulls[i + 1] == Prop(k, Bool(true));
    }
  }
}
