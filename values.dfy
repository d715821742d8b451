/**
 * The JavaScript values the layout view reads and writes: the option values
 * copied onto a view, the entries of its `config` object, and plain objects
 * whose keys keep their enumeration order.
 */
module JsValues {

  datatype Option<+T> = None | Some(value: T)

  /**
   * A plain JavaScript object seen as an ordered dictionary: `keys` lists the
   * own properties in enumeration order (the order of `for…in`,
   * `lodash.forEach`, `lodash.reduce` and `lodash.mapValues`), `entries` maps
   * each one to its value.
   */
  datatype Config<V> = Config(keys: seq<string>, entries: map<string, V>) {
    ghost predicate Valid() {
      && Distinct(keys)
      && (forall k :: k in entries <==> k in keys)
    }
  }

  predicate Distinct(ks: seq<string>) {
    forall i, j :: 0 <= i < j < |ks| ==> ks[i] != ks[j]
  }

  /** The head of a sequence of distinct keys is not in its tail, and the tail is distinct. */
  lemma DistinctTail(ks: seq<string>)
    requires Distinct(ks) && ks != []
    ensures Distinct(ks[1..]) && ks[0] !in ks[1..]
  {
    var rest := ks[1..];
    forall i, j | 0 <= i < j < |rest| ensures rest[i] != rest[j] {
      assert rest[i] == ks[i + 1] && rest[j] == ks[j + 1];
    }
    forall i | 0 <= i < |rest| ensures rest[i] != ks[0] {
      assert rest[i] == ks[i + 1];
    }
  }

  predicate IsDigits(s: string) {
    forall i :: 0 <= i < |s| ==> '0' <= s[i] <= '9'
  }

  /** The number a string of decimal digits denotes. */
  function DigitsValue(s: string): nat
    requires IsDigits(s)
  {
    if s == [] then 0 else DigitsValue(s[..|s| - 1]) * 10 + (s[|s| - 1] as int - '0' as int)
  }

  /**
   * A property key that is an array index: the canonical decimal form (no
   * leading zero except "0" itself) of an integer below 2^32 - 1.
   */
  predicate IsArrayIndex(key: string) {
    && key != ""
    && IsDigits(key)
    && (key[0] == '0' ==> key == "0")
    && DigitsValue(key) < 0xFFFF_FFFF
  }

  /**
   * The ordering half of the enumeration order of an ordinary object: every
   * array index comes before every other key, and the array indices are in
   * ascending numeric order. That the other keys keep their creation order
   * is `InsertKeySplices`.
   */
  ghost predicate EnumerationOrdered(keys: seq<string>) {
    forall i, j :: 0 <= i < j < |keys| && IsArrayIndex(keys[j]) ==>
      IsArrayIndex(keys[i]) && DigitsValue(keys[i]) <= DigitsValue(keys[j])
  }

  /**
   * The enumeration order after a new property `key` is created: an array
   * index goes before the first key that is not an array index or is a
   * larger one; any other key goes last.
   */
  function InsertKey(keys: seq<string>, key: string): (r: seq<string>)
    ensures |r| == |keys| + 1
    ensures forall k :: k in r <==> k in keys || k == key
    ensures Distinct(keys) && key !in keys ==> Distinct(r)
  {
    if !IsArrayIndex(key) then keys + [key]
    else if keys != [] && IsArrayIndex(keys[0]) && DigitsValue(keys[0]) < DigitsValue(key) then
      var rest := InsertKey(keys[1..], key);
      assert forall k :: k in keys <==> k == keys[0] || k in keys[1..];
      if Distinct(keys) && key !in keys then
        DistinctTail(keys);
        DistinctCons(keys[0], rest);
        [keys[0]] + rest
      else [keys[0]] + rest
    else
      if Distinct(keys) && key !in keys then
        DistinctCons(key, keys);
        [key] + keys
      else [key] + keys
  }

  /**
   * Creating a property splices the new key in and keeps the old keys in
   * their order; a key that is not an array index goes last, so those keys
   * stay in creation order.
   */
  lemma {:induction false} InsertKeySplices(keys: seq<string>, key: string)
    ensures exists i :: 0 <= i <= |keys| && InsertKey(keys, key) == keys[..i] + [key] + keys[i..]
    ensures !IsArrayIndex(key) ==> InsertKey(keys, key) == keys + [key]
    decreases |keys|
  {
    if !IsArrayIndex(key) {
      assert InsertKey(keys, key) == keys[..|keys|] + [key] + keys[|keys|..];
    } else if keys != [] && IsArrayIndex(keys[0]) && DigitsValue(keys[0]) < DigitsValue(key) {
      var tail := keys[1..];
      assert InsertKey(keys, key) == [keys[0]] + InsertKey(tail, key);
      InsertKeySplices(tail, key);
      var i :| 0 <= i <= |tail| && InsertKey(tail, key) == tail[..i] + [key] + tail[i..];
      SpliceCons(keys, key, i);
    } else {
      assert InsertKey(keys, key) == keys[..0] + [key] + keys[0..];
    }
  }

  /** Splicing `key` in at `i` behind the first key is splicing it in at `i + 1`. */
  lemma SpliceCons(keys: seq<string>, key: string, i: nat)
    requires keys != [] && i <= |keys| - 1
    ensures [keys[0]] + (keys[1..][..i] + [key] + keys[1..][i..]) == keys[..i + 1] + [key] + keys[i + 1..]
  {
    assert keys[..i + 1] == [keys[0]] + keys[1..][..i];
    assert keys[i + 1..] == keys[1..][i..];
  }

  /** A key in front of distinct keys that do not contain it. */
  lemma DistinctCons(k: string, ks: seq<string>)
    requires Distinct(ks) && k !in ks
    ensures Distinct([k] + ks)
  {
    var r := [k] + ks;
    forall i, j | 0 <= i < j < |r| ensures r[i] != r[j] {
      assert r[j] == ks[j - 1];
      if i > 0 {
        assert r[i] == ks[i - 1];
      }
    }
  }

  /** Creating a property keeps the keys in enumeration order. */
  lemma {:induction false} InsertKeyOrdered(keys: seq<string>, key: string)
    requires EnumerationOrdered(keys)
    ensures EnumerationOrdered(InsertKey(keys, key))
    decreases |keys|
  {
    if !IsArrayIndex(key) {
      AppendOrdered(keys, key);
    } else if keys != [] && IsArrayIndex(keys[0]) && DigitsValue(keys[0]) < DigitsValue(key) {
      var rest := InsertKey(keys[1..], key);
      TailOrdered(keys);
      InsertKeyOrdered(keys[1..], key);
      forall j | 0 <= j < |rest| && IsArrayIndex(rest[j]) ensures DigitsValue(keys[0]) <= DigitsValue(rest[j]) {
        assert rest[j] in rest;
        if rest[j] != key {
          var m :| 0 <= m < |keys[1..]| && keys[1..][m] == rest[j];
          assert keys[m + 1] == rest[j];
        }
      }
      ConsOrdered(keys[0], rest);
    } else {
      forall j | 0 <= j < |keys| && IsArrayIndex(keys[j]) ensures DigitsValue(key) <= DigitsValue(keys[j]) {
        assert IsArrayIndex(keys[0]) && DigitsValue(keys[0]) <= DigitsValue(keys[j]) by {
          if j > 0 {
            assert 0 < j;
          }
        }
      }
      ConsOrdered(key, keys);
    }
  }

  /** A key that is not an array index may go last. */
  lemma AppendOrdered(keys: seq<string>, key: string)
    requires EnumerationOrdered(keys) && !IsArrayIndex(key)
    ensures EnumerationOrdered(keys + [key])
  {
    var r := keys + [key];
    forall i, j | 0 <= i < j < |r| && IsArrayIndex(r[j])
      ensures IsArrayIndex(r[i]) && DigitsValue(r[i]) <= DigitsValue(r[j])
    {
      assert r[i] == keys[i] && r[j] == keys[j];
    }
  }

  /** An array index no larger than any array index of ordered keys may go first. */
  lemma ConsOrdered(k: string, keys: seq<string>)
    requires EnumerationOrdered(keys) && IsArrayIndex(k)
    requires forall j :: 0 <= j < |keys| && IsArrayIndex(keys[j]) ==> DigitsValue(k) <= DigitsValue(keys[j])
    ensures EnumerationOrdered([k] + keys)
  {
    var r := [k] + keys;
    forall i, j | 0 <= i < j < |r| && IsArrayIndex(r[j])
      ensures IsArrayIndex(r[i]) && DigitsValue(r[i]) <= DigitsValue(r[j])
    {
      assert r[j] == keys[j - 1];
      if i > 0 {
        assert r[i] == keys[i - 1];
      }
    }
  }

  lemma TailOrdered(keys: seq<string>)
    requires EnumerationOrdered(keys) && keys != []
    ensures EnumerationOrdered(keys[1..])
  {
    var rest := keys[1..];
    forall i, j | 0 <= i < j < |rest| && IsArrayIndex(rest[j])
      ensures IsArrayIndex(rest[i]) && DigitsValue(rest[i]) <= DigitsValue(rest[j])
    {
      assert rest[i] == keys[i + 1] && rest[j] == keys[j + 1];
    }
  }

  /** Integer-like keys enumerate first and in ascending order, whatever the creation order. */
  lemma IntegerKeysFirst()
    ensures InsertKey(InsertKey(InsertKey([], "name"), "5"), "1") == ["1", "5", "name"]
  {
    assert DigitsValue("5") == 5 && DigitsValue("1") == 1;
    assert !IsArrayIndex("name") by { assert !IsDigits("name") by { assert !('0' <= "name"[0] <= '9'); } }
  }

  /**
   * The values that flow through options and configuration entries.
   * `Func` is a function value (a view constructor or a template function),
   * `ViewRef` a reference to a view instance by its client id, `ConfigObject`
   * a slot configuration object as passed in the `config` option.
   */
  datatype Value =
    | Undefined
    | Null
    | Bool(b: bool)
    | Str(s: string)
    | Func(id: nat)
    | ViewRef(cid: nat)
    | ConfigObject(config: Config<RawEntry>)

  /** An options object (`config.options`, or the options given to a view constructor). */
  type Options = map<string, Value>

  /**
   * A `config` entry as the user writes it: a value (e.g. a constructor or a
   * module name; `AsObject` says how one whose `typeof` is "object" is read)
   * or a slot configuration object.
   */
  datatype RawEntry = Bare(value: Value) | Entry(slot: SlotConfig)

  /**
   * The properties of a slot configuration object that the view reads or
   * writes; `Undefined` stands for an absent property, `options == None` for
   * an absent or falsy `options`. `ctor` is the entry's `constructor`
   * property, assigned when the view constructor has been resolved.
   */
  datatype SlotConfig = SlotConfig(
    view: Value,
    enabled: Value,
    render: Value,
    options: Option<Options>,
    renderOnInitialize: Value,
    ctor: Value)

  /** `typeof v === 'object'`. */
  predicate IsObject(v: Value) {
    v.Null? || v.ViewRef? || v.ConfigObject?
  }

  /** JavaScript truthiness of a value. */
  predicate Truthy(v: Value) {
    match v
    case Undefined => false
    case Null => false
    case Bool(b) => b
    case Str(s) => s != ""
    case _ => true
  }
}
