/**
 * The PHP 7 built-ins the importer relies on: string values that may be null,
 * `explode`/`implode`, `trim`, `empty`, `array_combine`, arrays built by
 * successive assignments, and the loose comparison `==` between strings.
 */
module Php {
  import opened Wrappers

  /** A cell or entry value: a string, or null (also what reading a missing array key yields). */
  datatype Value = Null | Str(s: string)

  /** `(string) $v`: null becomes the empty string. */
  function AsString(v: Value): string {
    match v
    case Null => ""
    case Str(s) => s
  }

  /** `empty($v)` on the values the importer handles: null, "" and "0" are empty. */
  predicate IsEmpty(v: Value) {
    v == Null || v == Str("") || v == Str("0")
  }

  // ---------------------------------------------------------------------------
  // Arrays built by successive assignments `$a[$k] = $v`

  /** The array that results from assigning each pair in turn; a later pair for the same key overwrites. */
  function Assoc<V>(pairs: seq<(string, V)>): map<string, V>
  {
    if pairs == [] then map[]
    else Assoc(pairs[..|pairs| - 1])[pairs[|pairs| - 1].0 := pairs[|pairs| - 1].1]
  }

  /** Assigning one more pair updates the array built so far. */
  lemma AssocSnoc<V>(pairs: seq<(string, V)>, p: (string, V))
    ensures Assoc(pairs + [p]) == Assoc(pairs)[p.0 := p.1]
  {
    assert (pairs + [p])[..|pairs|] == pairs;
  }

  /** A key is present exactly when some pair names it, and it holds the value of the last such pair. */
  lemma {:induction false} AssocLastWins<V>(pairs: seq<(string, V)>, k: string)
    ensures k in Assoc(pairs) <==> exists i :: 0 <= i < |pairs| && pairs[i].0 == k
    ensures k in Assoc(pairs) ==>
      exists i :: 0 <= i < |pairs| && pairs[i] == (k, Assoc(pairs)[k]) &&
        forall j :: i < j < |pairs| ==> pairs[j].0 != k
  {
    if pairs != [] {
      var n := |pairs| - 1;
      var init := pairs[..n];
      AssocLastWins(init, k);
      if pairs[n].0 != k {
        if k in Assoc(pairs) {
          var i :| 0 <= i < |init| && init[i] == (k, Assoc(init)[k]) &&
            forall j :: i < j < |init| ==> init[j].0 != k;
          assert pairs[i] == (k, Assoc(pairs)[k]);
        }
        if exists i :: 0 <= i < |pairs| && pairs[i].0 == k {
          var i :| 0 <= i < |pairs| && pairs[i].0 == k;
          assert init[i].0 == k;
        }
      }
    }
  }

  /** The pair at position i decides its key when no later pair names that key. */
  lemma AssocLastPair<V>(pairs: seq<(string, V)>, i: nat)
    requires i < |pairs|
    requires forall j :: i < j < |pairs| ==> pairs[j].0 != pairs[i].0
    ensures pairs[i].0 in Assoc(pairs) && Assoc(pairs)[pairs[i].0] == pairs[i].1
  {
    AssocLastWins(pairs, pairs[i].0);
    var k :| 0 <= k < |pairs| && pairs[k] == (pairs[i].0, Assoc(pairs)[pairs[i].0]) &&
      forall j :: k < j < |pairs| ==> pairs[j].0 != pairs[i].0;
    assert k == i;
  }

  // ---------------------------------------------------------------------------
  // explode / implode

  /** Position of the first `c` in `s`, or |s| when there is none. */
  function IndexOf(s: string, c: char): (i: nat)
    ensures i <= |s|
    ensures forall j :: 0 <= j < i ==> s[j] != c
    ensures i < |s| ==> s[i] == c
  {
    if s == [] then 0 else if s[0] == c then 0 else 1 + IndexOf(s[1..], c)
  }

  /** `implode($sep, $parts)`. */
  function Implode(sep: char, parts: seq<string>): string
  {
    if parts == [] then "" else if |parts| == 1 then parts[0] else parts[0] + [sep] + Implode(sep, parts[1..])
  }

  /** `explode($sep, $s)`: the pieces of `s` between the occurrences of `sep`; joining them back gives `s`. */
  function Explode(sep: char, s: string): (parts: seq<string>)
    ensures |parts| >= 1
    ensures forall i :: 0 <= i < |parts| ==> sep !in parts[i]
    ensures Implode(sep, parts) == s
    decreases |s|
  {
    var i := IndexOf(s, sep);
    if i == |s| then [s]
    else
      var rest := Explode(sep, s[i + 1..]);
      assert s == s[..i] + [sep] + s[i + 1..];
      assert ([s[..i]] + rest)[1..] == rest;
      [s[..i]] + rest
  }

  /** Splitting the join of separator-free pieces gives the pieces back. */
  lemma {:induction false} ExplodeImplode(sep: char, parts: seq<string>)
    requires |parts| >= 1
    requires forall i :: 0 <= i < |parts| ==> sep !in parts[i]
    ensures Explode(sep, Implode(sep, parts)) == parts
  {
    if |parts| > 1 {
      var s := Implode(sep, parts);
      var tail := Implode(sep, parts[1..]);
      assert s == parts[0] + [sep] + tail;
      assert s[|parts[0]|] == sep;
      assert forall j :: 0 <= j < |parts[0]| ==> s[j] == parts[0][j];
      assert IndexOf(s, sep) == |parts[0]|;
      assert s[..|parts[0]|] == parts[0];
      assert s[|parts[0]| + 1..] == tail;
      ExplodeImplode(sep, parts[1..]);
    }
  }

  /** `list($a, $b) = explode($sep, $s, 2)`: `s` split at its first `sep` only; `$b` is null when there is no `sep`. */
  function SplitFirst(sep: char, s: string): (r: (string, Value))
    ensures sep !in r.0
    ensures r.1 == Null <==> sep !in s
    ensures r.1 == Null ==> r.0 == s
    ensures r.1.Str? ==> s == r.0 + [sep] + r.1.s
  {
    var i := IndexOf(s, sep);
    if i == |s| then (s, Null)
    else
      assert s == s[..i] + [sep] + s[i + 1..];
      (s[..i], Str(s[i + 1..]))
  }

  /** With a limit of 2, `explode` keeps the first part of the unlimited split and glues the rest back together. */
  lemma SplitFirstExplode(sep: char, s: string)
    ensures var parts := Explode(sep, s);
      SplitFirst(sep, s).0 == parts[0] &&
      (SplitFirst(sep, s).1 == Null <==> |parts| == 1) &&
      (|parts| > 1 ==> SplitFirst(sep, s).1 == Str(Implode(sep, parts[1..])))
  {
  }

  // ---------------------------------------------------------------------------
  // trim

  /** The characters `trim` strips by default: space, tab, newline, carriage return, NUL and vertical tab. */
  predicate IsTrimChar(c: char) {
    c == ' ' || c == '\t' || c == '\n' || c == '\r' || c == '\0' || c == '\U{000B}'
  }

  /** `ltrim($s)`: drops strippable characters from the front. */
  function TrimLeft(s: string): string
  {
    if s != [] && IsTrimChar(s[0]) then TrimLeft(s[1..]) else s
  }

  /** `ltrim` leaves a suffix of its input that does not start with a strippable character; everything before it is strippable. */
  lemma {:induction false} TrimLeftSuffix(s: string)
    ensures |TrimLeft(s)| <= |s| && TrimLeft(s) == s[|s| - |TrimLeft(s)|..]
    ensures forall i :: 0 <= i < |s| - |TrimLeft(s)| ==> IsTrimChar(s[i])
    ensures TrimLeft(s) == [] || !IsTrimChar(TrimLeft(s)[0])
  {
    if s != [] && IsTrimChar(s[0]) {
      var t := s[1..];
      TrimLeftSuffix(t);
      assert TrimLeft(s) == TrimLeft(t);
      assert t[|t| - |TrimLeft(t)|..] == s[|s| - |TrimLeft(s)|..];
      forall i | 0 <= i < |s| - |TrimLeft(s)|
        ensures IsTrimChar(s[i])
      {
        if i > 0 { assert s[i] == t[i - 1]; }
      }
    }
  }

  /** `rtrim($s)`: drops strippable characters from the end. */
  function TrimRight(s: string): string
  {
    if s != [] && IsTrimChar(s[|s| - 1]) then TrimRight(s[..|s| - 1]) else s
  }

  /** `rtrim` leaves a prefix of its input that does not end with a strippable character; everything after it is strippable. */
  lemma {:induction false} TrimRightPrefix(s: string)
    ensures |TrimRight(s)| <= |s| && TrimRight(s) == s[..|TrimRight(s)|]
    ensures forall i :: |TrimRight(s)| <= i < |s| ==> IsTrimChar(s[i])
    ensures TrimRight(s) == [] || !IsTrimChar(TrimRight(s)[|TrimRight(s)| - 1])
  {
    if s != [] && IsTrimChar(s[|s| - 1]) {
      var t := s[..|s| - 1];
      TrimRightPrefix(t);
      assert TrimRight(s) == TrimRight(t);
      assert t[..|TrimRight(t)|] == s[..|TrimRight(s)|];
      forall i | |TrimRight(s)| <= i < |s|
        ensures IsTrimChar(s[i])
      {
        if i < |t| { assert s[i] == t[i]; }
      }
    }
  }

  /** `trim($s)`: `ltrim` then `rtrim`. */
  function Trim(s: string): string
  {
    TrimRight(TrimLeft(s))
  }

  /**
   * `trim` leaves the slice of `s` that remains once strippable characters
   * are removed from both ends: everything outside the slice is strippable,
   * and the slice neither starts nor ends with a strippable character.
   */
  lemma TrimShape(s: string)
    ensures var r := Trim(s);
      r == [] || (!IsTrimChar(r[0]) && !IsTrimChar(r[|r| - 1]))
    ensures var r, i := Trim(s), |s| - |TrimLeft(s)|;
      0 <= i && i + |r| <= |s| && r == s[i..i + |r|] &&
      (forall j :: 0 <= j < i ==> IsTrimChar(s[j])) &&
      (forall j :: i + |r| <= j < |s| ==> IsTrimChar(s[j]))
  {
    TrimLeftSuffix(s);
    TrimRightPrefix(TrimLeft(s));
    var l := TrimLeft(s);
    var r := TrimRight(l);
    var i := |s| - |l|;
    assert r != [] ==> r[0] == l[0];
    assert r == l[..|r|] && l == s[i..];
    assert r == s[i..i + |r|];
    forall j | i + |r| <= j < |s|
      ensures IsTrimChar(s[j])
    {
      assert s[j] == l[j - i];
    }
  }

  /** Trimming twice is trimming once. */
  lemma TrimIdempotent(s: string)
    ensures Trim(Trim(s)) == Trim(s)
  {
    var t := Trim(s);
    TrimShape(s);
    assert TrimLeft(t) == t;
    assert TrimRight(t) == t;
  }

  /** Strippable characters in front of a string that does not start with one are exactly what `ltrim` removes. */
  lemma {:induction false} TrimLeftPadded(pad: string, s: string)
    requires forall i :: 0 <= i < |pad| ==> IsTrimChar(pad[i])
    requires s == [] || !IsTrimChar(s[0])
    ensures TrimLeft(pad + s) == s
  {
    if pad != [] {
      assert (pad + s)[1..] == pad[1..] + s;
      TrimLeftPadded(pad[1..], s);
    }
  }

  /** Strippable characters after a string that does not end with one are exactly what `rtrim` removes. */
  lemma {:induction false} TrimRightPadded(s: string, pad: string)
    requires forall i :: 0 <= i < |pad| ==> IsTrimChar(pad[i])
    requires s == [] || !IsTrimChar(s[|s| - 1])
    ensures TrimRight(s + pad) == s
  {
    if pad != [] {
      var n := |pad| - 1;
      assert (s + pad)[..|s + pad| - 1] == s + pad[..n];
      TrimRightPadded(s, pad[..n]);
    }
  }

  /** `trim` removes exactly the strippable padding around a string that neither starts nor ends with a strippable character. */
  lemma TrimPadded(left: string, s: string, right: string)
    requires forall i :: 0 <= i < |left| ==> IsTrimChar(left[i])
    requires forall i :: 0 <= i < |right| ==> IsTrimChar(right[i])
    requires s != [] && !IsTrimChar(s[0]) && !IsTrimChar(s[|s| - 1])
    ensures Trim(left + s + right) == s
  {
    assert left + s + right == left + (s + right);
    TrimLeftPadded(left, s + right);
    TrimRightPadded(s, right);
  }

  // ---------------------------------------------------------------------------
  // array_combine

  /** The distinct strings of a list: the keys of its `array_flip`. */
  function Elements(xs: seq<string>): set<string>
  {
    set i | 0 <= i < |xs| :: xs[i]
  }

  /** The (key, value) pairs of two equally long lists, position by position. */
  function ZipPairs(keys: seq<string>, values: seq<string>): (ps: seq<(string, string)>)
    requires |keys| == |values|
    ensures |ps| == |keys|
    ensures forall i :: 0 <= i < |ps| ==> ps[i] == (keys[i], values[i])
  {
    seq(|keys|, i requires 0 <= i < |keys| => (keys[i], values[i]))
  }

  /**
   * `array_combine($keys, $values)`: false (None) when the lengths differ;
   * otherwise each key maps to the value at the last position it occurs.
   */
  function ArrayCombine(keys: seq<string>, values: seq<string>): (r: Option<map<string, string>>)
    ensures r.Some? <==> |keys| == |values|
    ensures r.Some? ==> r.value.Keys == Elements(keys)
  {
    if |keys| != |values| then None
    else
      var ps := ZipPairs(keys, values);
      var m := Assoc(ps);
      assert m.Keys == Elements(keys) by {
        forall k ensures k in m <==> k in Elements(keys) {
          AssocLastWins(ps, k);
          if k in Elements(keys) {
            var i :| 0 <= i < |keys| && keys[i] == k;
            assert ps[i].0 == k;
          }
        }
      }
      Some(m)
  }

  /** A header name that occurs more than once keeps the value of its last column. */
  lemma ArrayCombineLaterWins(keys: seq<string>, values: seq<string>, i: nat)
    requires |keys| == |values| && i < |keys|
    requires forall j :: i < j < |keys| ==> keys[j] != keys[i]
    ensures ArrayCombine(keys, values).Some?
    ensures ArrayCombine(keys, values).value[keys[i]] == values[i]
  {
    AssocLastPair(ZipPairs(keys, values), i);
  }

  // ---------------------------------------------------------------------------
  // Loose comparison `==`

  predicate IsDigit(c: char) { '0' <= c <= '9' }

  /** The whitespace PHP skips in front of a numeric string. */
  predicate IsNumericSpace(c: char) {
    c == ' ' || c == '\t' || c == '\n' || c == '\r' || c == '\U{000B}' || c == '\U{000C}'
  }

  function LeadingSpaces(s: string): (n: nat)
    ensures n <= |s|
  {
    if s != [] && IsNumericSpace(s[0]) then 1 + LeadingSpaces(s[1..]) else 0
  }

  function LeadingDigits(s: string): (n: nat)
    ensures n <= |s|
    ensures forall i :: 0 <= i < n ==> IsDigit(s[i])
  {
    if s != [] && IsDigit(s[0]) then 1 + LeadingDigits(s[1..]) else 0
  }

  /** The value of a string of decimal digits. */
  function DigitsValue(s: string): nat
    requires forall i :: 0 <= i < |s| ==> IsDigit(s[i])
  {
    if s == [] then 0
    else
      var last := s[|s| - 1];
      assert IsDigit(last);
      10 * DigitsValue(s[..|s| - 1]) + (last as int - '0' as int)
  }

  /** An optional leading sign: whether it was a minus, and what follows it. */
  function StripSign(s: string): (bool, string)
  {
    if s != [] && (s[0] == '-' || s[0] == '+') then (s[0] == '-', s[1..]) else (false, s)
  }

  /** The number `mantissa * 10^exponent`. */
  datatype Decimal = Decimal(mantissa: int, exponent: int)

  /** `m * 10^k`. */
  function Scale(m: int, k: nat): int
  {
    if k == 0 then m else 10 * Scale(m, k - 1)
  }

  /** Two decimals denote the same number: the one with the larger exponent, scaled to the other's, has the same mantissa. */
  predicate SameNumber(a: Decimal, b: Decimal) {
    if a.exponent <= b.exponent then a.mantissa == Scale(b.mantissa, b.exponent - a.exponent)
    else Scale(a.mantissa, a.exponent - b.exponent) == b.mantissa
  }

  /** Denoting the same number is symmetric. */
  lemma SameNumberSymmetric(a: Decimal, b: Decimal)
    ensures SameNumber(a, b) == SameNumber(b, a)
  {
    if a.exponent == b.exponent {
      assert Scale(a.mantissa, 0) == a.mantissa && Scale(b.mantissa, 0) == b.mantissa;
    }
  }

  /**
   * The number a PHP 7 numeric string denotes, or None when it is not numeric:
   * optional leading whitespace, an optional sign, digits with an optional
   * fraction (at least one digit in all), an optional exponent, and nothing after.
   */
  function NumericValue(s: string): Option<Decimal>
  {
    var (negative, unsigned) := StripSign(s[LeadingSpaces(s)..]);
    var n := LeadingDigits(unsigned);
    var afterInt := unsigned[n..];
    var hasPoint := afterInt != [] && afterInt[0] == '.';
    var fraction := if hasPoint then afterInt[1..] else afterInt;
    var m := if hasPoint then LeadingDigits(fraction) else 0;
    var rest := fraction[m..];
    if n + m == 0 then None
    else
      var digits := unsigned[..n] + fraction[..m];
      assert forall i :: 0 <= i < |digits| ==> IsDigit(digits[i]) by {
        forall i | 0 <= i < |digits| ensures IsDigit(digits[i]) {
          if i >= n { assert digits[i] == fraction[i - n]; }
        }
      }
      var magnitude := DigitsValue(digits);
      var mantissa: int := if negative then -(magnitude as int) else magnitude;
      if rest == [] then Some(Decimal(mantissa, -m))
      else if rest[0] != 'e' && rest[0] != 'E' then None
      else
        var (expNegative, expDigits) := StripSign(rest[1..]);
        if expDigits == [] || LeadingDigits(expDigits) != |expDigits| then None
        else
          var e := DigitsValue(expDigits);
          Some(Decimal(mantissa, (if expNegative then -(e as int) else e as int) - m))
  }

  /**
   * PHP 7 `$a == $b` between strings and null: null equals only "" and null;
   * two numeric strings are equal when they denote the same number; any other
   * two strings are equal only when identical.
   */
  predicate LooseEquals(a: Value, b: Value) {
    match (a, b)
    case (Null, Null) => true
    case (Null, Str(y)) => y == ""
    case (Str(x), Null) => x == ""
    case (Str(x), Str(y)) =>
      match (NumericValue(x), NumericValue(y))
      case (Some(p), Some(q)) => SameNumber(p, q)
      case _ => x == y
  }

  /** Two numeric strings that denote the same number are loosely equal. */
  lemma NumericLooseEquals(x: string, y: string, p: Decimal, q: Decimal)
    requires NumericValue(x) == Some(p) && NumericValue(y) == Some(q) && SameNumber(p, q)
    ensures LooseEquals(Str(x), Str(y))
  {
  }

  /** `in_array($x, $list)` with its default loose comparison. */
  predicate InArray(x: string, list: seq<string>) {
    exists i :: 0 <= i < |list| && LooseEquals(Str(x), Str(list[i]))
  }

  /** Identical values are loosely equal. */
  lemma LooseEqualsReflexive(v: Value)
    ensures LooseEquals(v, v)
  {
    if v.Str? && NumericValue(v.s).Some? {
      var d := NumericValue(v.s).value;
      assert Scale(d.mantissa, 0) == d.mantissa;
    }
  }

  /** Loose equality does not depend on the order of its operands. */
  lemma LooseEqualsSymmetric(a: Value, b: Value)
    ensures LooseEquals(a, b) == LooseEquals(b, a)
  {
    if a.Str? && b.Str? {
      var p, q := NumericValue(a.s), NumericValue(b.s);
      if p.Some? && q.Some? {
        SameNumberSymmetric(p.value, q.value);
      }
    }
  }
}
