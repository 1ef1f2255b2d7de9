/**
 * The pieces of PHP's runtime semantics the controller depends on:
 * the values `json_decode` produces, `empty()` and truthiness, the conversion
 * of an `int` to a string, and `array_replace` / `array_replace_recursive`
 * on the list-shaped arrays the violation loop builds.
 */
module Php {

  import opened Wrappers

  /** A value decoded by `json_decode` (objects become stdClass, kept with their member order).
      Floats are not modelled. The same type serves for the JSON bodies of responses. */
  datatype Json =
    | JNull
    | JBool(b: bool)
    | JInt(i: int)
    | JStr(s: string)
    | JArray(items: seq<Json>)
    | JObject(members: seq<(string, Json)>)

  /** PHP `empty()`: null, false, 0, "", "0" and the empty array; a stdClass object never is. */
  predicate Empty(v: Json) {
    match v
    case JNull => true
    case JBool(b) => !b
    case JInt(i) => i == 0
    case JStr(s) => s == "" || s == "0"
    case JArray(items) => items == []
    case JObject(_) => false
  }

  /** Truthiness of a nullable `int`: null and 0 are falsy. */
  predicate TruthyInt(c: Option<int>) {
    c.Some? && c.value != 0
  }

  /** Truthiness of a nullable `string`: null, "" and "0" are falsy. */
  predicate TruthyString(m: Option<string>) {
    m.Some? && m.value != "" && m.value != "0"
  }

  /** The keys of an object's members, in order. */
  function Keys(members: seq<(string, Json)>): (ks: seq<string>)
    ensures |ks| == |members|
    ensures forall i :: 0 <= i < |members| ==> ks[i] == members[i].0
  {
    seq(|members|, i requires 0 <= i < |members| => members[i].0)
  }

  /** The value stored under `key` in an object's members. */
  function Lookup(members: seq<(string, Json)>, key: string): (r: Option<Json>)
    ensures r.None? <==> forall i :: 0 <= i < |members| ==> members[i].0 != key
  {
    if members == [] then None
    else if members[0].0 == key then Some(members[0].1)
    else
      var r := Lookup(members[1..], key);
      assert forall i :: 1 <= i < |members| ==> members[i] == members[1..][i - 1];
      r
  }

  /** A value found under `key` is stored under it. */
  lemma {:induction false} LookupFound(members: seq<(string, Json)>, key: string)
    requires Lookup(members, key).Some?
    ensures (key, Lookup(members, key).value) in members
  {
    if members[0].0 != key {
      LookupFound(members[1..], key);
    }
  }

  /** The value under `key` is the one at its first occurrence. */
  lemma {:induction false} LookupAt(members: seq<(string, Json)>, key: string, i: nat)
    requires i < |members| && members[i].0 == key
    requires forall j :: 0 <= j < i ==> members[j].0 != key
    ensures Lookup(members, key) == Some(members[i].1)
  {
    if i > 0 {
      LookupAt(members[1..], key, i - 1);
    }
  }

  // ---------------------------------------------------------------------------
  // int to string, as in `'+' . $indicMobile . $mobile`

  predicate IsDigits(s: string) {
    forall i :: 0 <= i < |s| ==> '0' <= s[i] <= '9'
  }

  function DigitChar(d: nat): (c: char)
    requires d < 10
    ensures '0' <= c <= '9' && c as int - '0' as int == d
  {
    "0123456789"[d]
  }

  /** The decimal digits of `n`, without leading zeros. */
  function NatToString(n: nat): (s: string)
    ensures |s| >= 1 && IsDigits(s)
    ensures s[0] == '0' ==> n == 0
  {
    if n < 10 then [DigitChar(n)] else NatToString(n / 10) + [DigitChar(n % 10)]
  }

  /** PHP's conversion of an `int` to a string: a minus sign, then the decimal digits. */
  function IntToString(n: int): (s: string)
    ensures n >= 0 ==> s == NatToString(n)
    ensures n < 0 ==> |s| >= 2 && s[0] == '-' && s[1..] == NatToString(-n)
  {
    if n < 0 then "-" + NatToString(-n) else NatToString(n)
  }

  /** The converted string reads back as `n`: a minus sign exactly when `n` is negative, then its magnitude's digits. */
  lemma {:induction false} IntToStringRoundTrip(n: int)
    ensures var s := IntToString(n);
      |s| >= 1 && (n < 0 <==> s[0] == '-') &&
      (n < 0 ==> IsDigits(s[1..]) && DecimalValue(s[1..]) == -n) &&
      (n >= 0 ==> IsDigits(s) && DecimalValue(s) == n)
  {
    if n < 0 {
      NatToStringRoundTrip(-n);
    } else {
      NatToStringRoundTrip(n);
    }
  }

  /** `a` followed by `k` zero digits, that is a times 10 to the power k. */
  function Shifted(a: nat, k: nat): nat {
    if k == 0 then a else 10 * Shifted(a, k - 1)
  }

  /** The number a string of decimal digits denotes. */
  function DecimalValue(s: string): nat
    requires IsDigits(s)
  {
    if s == [] then 0 else DecimalValue(s[..|s| - 1]) * 10 + (s[|s| - 1] as int - '0' as int)
  }

  /** Reading the digits back gives the number: the conversion loses nothing. */
  lemma {:induction false} NatToStringRoundTrip(n: nat)
    ensures DecimalValue(NatToString(n)) == n
  {
    if n >= 10 {
      var s := NatToString(n);
      NatToStringRoundTrip(n / 10);
      assert s[..|s| - 1] == NatToString(n / 10);
    }
  }

  /** The number denoted by two digit strings written one after the other. */
  lemma {:induction false} DecimalValueAppend(s: string, t: string)
    requires IsDigits(s) && IsDigits(t)
    ensures IsDigits(s + t)
    ensures DecimalValue(s + t) == Shifted(DecimalValue(s), |t|) + DecimalValue(t)
  {
    var u := s + t;
    assert IsDigits(u) by {
      forall i | 0 <= i < |u| ensures '0' <= u[i] <= '9' {
        if i < |s| { assert u[i] == s[i]; } else { assert u[i] == t[i - |s|]; }
      }
    }
    if t == [] {
      assert u == s;
    } else {
      var t' := t[..|t| - 1];
      assert IsDigits(t');
      assert u[..|u| - 1] == s + t';
      DecimalValueAppend(s, t');
    }
  }

  /** A digit string is canonical when it has no leading zero (a lone "0" is allowed). */
  predicate Canonical(s: string) {
    |s| >= 1 && IsDigits(s) && (s[0] == '0' ==> |s| == 1)
  }

  lemma {:induction false} LeadingDigitPositive(s: string)
    requires |s| >= 1 && IsDigits(s) && s[0] != '0'
    ensures DecimalValue(s) >= 1
  {
    if |s| > 1 {
      var s' := s[..|s| - 1];
      assert s'[0] == s[0];
      LeadingDigitPositive(s');
    }
  }

  /** NatToString gives the only canonical digit string for each number. */
  lemma {:induction false} NatToStringUnique(s: string)
    requires Canonical(s)
    ensures s == NatToString(DecimalValue(s))
  {
    var n := DecimalValue(s);
    var d := s[|s| - 1] as int - '0' as int;
    if |s| == 1 {
      assert s[..|s| - 1] == [];
      assert n == DecimalValue(s[..|s| - 1]) * 10 + d;
      assert DigitChar(d) == s[0];
    } else {
      var s' := s[..|s| - 1];
      assert s == s' + [s[|s| - 1]];
      assert s'[0] == s[0];
      assert Canonical(s');
      NatToStringUnique(s');
      LeadingDigitPositive(s');
      assert n == DecimalValue(s') * 10 + d;
      assert n / 10 == DecimalValue(s') && n % 10 == d;
      assert DigitChar(d) == s[|s| - 1];
      assert NatToString(n) == NatToString(n / 10) + [DigitChar(n % 10)];
    }
  }

  /** Writing a non-zero digit in front of the digits of `n`. */
  lemma {:induction false} PrependDigit(d: nat, n: nat)
    requires 1 <= d < 10
    ensures NatToString(Shifted(d, |NatToString(n)|) + n) == [DigitChar(d)] + NatToString(n)
  {
    var b := NatToString(n);
    var t := [DigitChar(d)] + b;
    NatToStringRoundTrip(n);
    DecimalValueAppend([DigitChar(d)], b);
    assert [DigitChar(d)][..0] == [];
    assert DecimalValue([DigitChar(d)]) == d;
    assert t[0] == DigitChar(d);
    NatToStringUnique(t);
  }

  // ---------------------------------------------------------------------------
  // String-keyed arrays of strings, and array_replace / array_replace_recursive

  /** A PHP array whose keys are strings and whose values are strings, in insertion order. */
  type Assoc = seq<(string, string)>

  predicate UniqueKeys(a: Assoc) {
    forall i, j :: 0 <= i < j < |a| ==> a[i].0 != a[j].0
  }

  /** `$a[$k]`, or null when the key is missing. */
  function Get(a: Assoc, k: string): (r: Option<string>)
    ensures r.None? <==> forall i :: 0 <= i < |a| ==> a[i].0 != k
  {
    if a == [] then None
    else if a[0].0 == k then Some(a[0].1)
    else
      assert forall i :: 1 <= i < |a| ==> a[i] == a[1..][i - 1];
      Get(a[1..], k)
  }

  lemma {:induction false} GetCons(p: (string, string), rest: Assoc, k: string)
    ensures Get([p] + rest, k) == if p.0 == k then Some(p.1) else Get(rest, k)
  {
    assert ([p] + rest)[1..] == rest;
  }

  lemma {:induction false} UniqueKeysCons(p: (string, string), rest: Assoc)
    ensures UniqueKeys([p] + rest) <==> UniqueKeys(rest) && Get(rest, p.0).None?
  {
    var a := [p] + rest;
    assert forall i :: 1 <= i < |a| ==> a[i] == rest[i - 1];
    if UniqueKeys(a) {
      forall i, j | 0 <= i < j < |rest| ensures rest[i].0 != rest[j].0 {
        assert a[i + 1] == rest[i] && a[j + 1] == rest[j];
      }
      forall i | 0 <= i < |rest| ensures rest[i].0 != p.0 {
        assert a[0] == p && a[i + 1] == rest[i];
        assert a[0].0 != a[i + 1].0;
      }
    }
    if UniqueKeys(rest) && Get(rest, p.0).None? {
      forall i, j | 0 <= i < j < |a| ensures a[i].0 != a[j].0 {
        if i > 0 { assert a[i] == rest[i - 1]; }
      }
    }
  }

  /** `$a[$k] = $v`: an existing key keeps its place and takes the new value; a new key is appended. */
  function Put(a: Assoc, k: string, v: string): (r: Assoc)
    requires UniqueKeys(a)
    ensures UniqueKeys(r)
    ensures Get(r, k) == Some(v)
    ensures forall k' :: k' != k ==> Get(r, k') == Get(a, k')
    ensures Get(a, k).Some? ==> |r| == |a| && forall i :: 0 <= i < |a| ==> r[i] == (if a[i].0 == k then (k, v) else a[i])
    ensures Get(a, k).None? ==> r == a + [(k, v)]
  {
    if a == [] then [(k, v)]
    else if a[0].0 == k then
      PutHere(a, k, v);
      [(k, v)] + a[1..]
    else
      UniqueKeysCons(a[0], a[1..]);
      assert a == [a[0]] + a[1..];
      var rest := Put(a[1..], k, v);
      PutThere(a, k, v, rest);
      [a[0]] + rest
  }

  /** Put's contract when the key is at the head of `a`. */
  lemma {:induction false} PutHere(a: Assoc, k: string, v: string)
    requires UniqueKeys(a) && |a| > 0 && a[0].0 == k
    ensures var r := [(k, v)] + a[1..];
      && UniqueKeys(r) && Get(r, k) == Some(v) && Get(a, k).Some?
      && (forall k' :: k' != k ==> Get(r, k') == Get(a, k'))
      && |r| == |a| && forall i :: 0 <= i < |a| ==> r[i] == (if a[i].0 == k then (k, v) else a[i])
  {
    var r := [(k, v)] + a[1..];
    assert a == [a[0]] + a[1..];
    UniqueKeysCons(a[0], a[1..]);
    UniqueKeysCons((k, v), a[1..]);
    GetCons(a[0], a[1..], k);
    GetCons((k, v), a[1..], k);
    forall k' | k' != k ensures Get(r, k') == Get(a, k') {
      GetCons((k, v), a[1..], k');
      GetCons(a[0], a[1..], k');
    }
    forall i | 0 <= i < |a| ensures r[i] == (if a[i].0 == k then (k, v) else a[i]) {
      if i > 0 { assert r[i] == a[i]; assert a[i].0 != a[0].0; }
    }
  }

  /** Put's contract for `[a[0]] + rest` when `rest` is the update of the tail and the key is not at the head. */
  lemma {:induction false} PutThere(a: Assoc, k: string, v: string, rest: Assoc)
    requires UniqueKeys(a) && |a| > 0 && a[0].0 != k
    requires UniqueKeys(rest) && Get(rest, k) == Some(v)
    requires forall k' :: k' != k ==> Get(rest, k') == Get(a[1..], k')
    requires Get(a[1..], k).Some? ==> |rest| == |a[1..]| && forall i :: 0 <= i < |a[1..]| ==> rest[i] == (if a[1..][i].0 == k then (k, v) else a[1..][i])
    requires Get(a[1..], k).None? ==> rest == a[1..] + [(k, v)]
    ensures var r := [a[0]] + rest;
      && UniqueKeys(r) && Get(r, k) == Some(v)
      && (forall k' :: k' != k ==> Get(r, k') == Get(a, k'))
      && (Get(a, k).Some? ==> |r| == |a| && forall i :: 0 <= i < |a| ==> r[i] == (if a[i].0 == k then (k, v) else a[i]))
      && (Get(a, k).None? ==> r == a + [(k, v)])
  {
    var r := [a[0]] + rest;
    assert a == [a[0]] + a[1..];
    UniqueKeysCons(a[0], a[1..]);
    UniqueKeysCons(a[0], rest);
    GetCons(a[0], rest, k);
    GetCons(a[0], a[1..], k);
    forall k' | k' != k ensures Get(r, k') == Get(a, k') {
      GetCons(a[0], rest, k');
      GetCons(a[0], a[1..], k');
    }
    if Get(a, k).Some? {
      forall i | 0 <= i < |a| ensures r[i] == (if a[i].0 == k then (k, v) else a[i]) {
        if i > 0 { assert r[i] == rest[i - 1] && a[i] == a[1..][i - 1]; }
      }
    } else {
      assert r == a + [(k, v)];
    }
  }

  /** `array_replace($a, $b)`: every entry of `b`, in order, is written into `a`. */
  function ArrayReplace(a: Assoc, b: Assoc): (r: Assoc)
    requires UniqueKeys(a) && UniqueKeys(b)
    ensures UniqueKeys(r)
    ensures forall k :: Get(r, k) == if Get(b, k).Some? then Get(b, k) else Get(a, k)
    decreases |b|
  {
    if b == [] then a
    else
      assert forall i :: 1 <= i < |b| ==> b[i] == b[1..][i - 1];
      ArrayReplace(Put(a, b[0].0, b[0].1), b[1..])
  }

  /** The lists whose entries all have unique keys. */
  predicate AllUniqueKeys(l: seq<Assoc>) {
    forall i :: 0 <= i < |l| ==> UniqueKeys(l[i])
  }

  /** What `array_replace_recursive` makes of each position, given the lists. */
  predicate ReplacedAt(base: seq<Assoc>, repl: seq<Assoc>, r: seq<Assoc>)
    requires AllUniqueKeys(base) && AllUniqueKeys(repl)
  {
    && |r| == (if |base| < |repl| then |repl| else |base|)
    && (forall i :: 0 <= i < |base| && i < |repl| ==> r[i] == ArrayReplace(base[i], repl[i]))
    && (forall i :: |base| <= i < |repl| ==> r[i] == repl[i])
    && (forall i :: |repl| <= i < |base| ==> r[i] == base[i])
  }

  /** Merging the heads and prepending them to the merged tails gives the merged lists. */
  lemma {:induction false} ReplacedAtCons(base: seq<Assoc>, repl: seq<Assoc>, rest: seq<Assoc>)
    requires base != [] && repl != []
    requires AllUniqueKeys(base) && AllUniqueKeys(repl)
    requires AllUniqueKeys(base[1..]) && AllUniqueKeys(repl[1..])
    requires ReplacedAt(base[1..], repl[1..], rest)
    ensures ReplacedAt(base, repl, [ArrayReplace(base[0], repl[0])] + rest)
  {
    var r := [ArrayReplace(base[0], repl[0])] + rest;
    forall i | 1 <= i < |r| ensures r[i] == rest[i - 1] && (i < |base| ==> base[i] == base[1..][i - 1]) && (i < |repl| ==> repl[i] == repl[1..][i - 1]) {
    }
  }

  /**
   * `array_replace_recursive($base, $repl)` where both are lists (keys 0, 1, ...)
   * of string-keyed arrays: a position both have is merged with `array_replace`
   * (its values are strings, so the recursion stops there), a position only one
   * has is taken from it.
   */
  function ArrayReplaceRecursive(base: seq<Assoc>, repl: seq<Assoc>): (r: seq<Assoc>)
    requires AllUniqueKeys(base) && AllUniqueKeys(repl)
    ensures ReplacedAt(base, repl, r)
  {
    if base == [] then repl
    else if repl == [] then base
    else
      assert AllUniqueKeys(base[1..]) && AllUniqueKeys(repl[1..]) by {
        assert forall i :: 0 <= i < |base| - 1 ==> base[1..][i] == base[i + 1];
        assert forall i :: 0 <= i < |repl| - 1 ==> repl[1..][i] == repl[i + 1];
      }
      var rest := ArrayReplaceRecursive(base[1..], repl[1..]);
      ReplacedAtCons(base, repl, rest);
      [ArrayReplace(base[0], repl[0])] + rest
  }

}
