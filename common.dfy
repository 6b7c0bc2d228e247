/** Values and Python string semantics shared by the modules of the model.

    The platform is written in Python; every module below works on `str`
    values and JSON dictionaries. This module states the few builtins the
    core relies on (`str.isspace`, `str.strip`, `str.split`, `str.join`,
    `str.lower`, `in` on strings, `int(str)`, `str.isdigit`) in Dafny terms,
    together with the facts about them that the other modules use. */
module Common {

  datatype Option<+T> = None | Some(value: T)

  /** A JSON value as the `json` module reads or writes it. Objects are
      modelled as maps; their key order is not part of the model. */
  datatype JsonValue =
    | JNull
    | JBool(b: bool)
    | JNum(n: real)
    | JStr(s: string)
    | JArr(items: seq<JsonValue>)
    | JObj(fields: map<string, JsonValue>)

  /** A Python `dict` read from or written to a JSON file. */
  type Dict = map<string, JsonValue>

  function Min(a: int, b: int): int { if a <= b then a else b }

  function Max(a: int, b: int): int { if a >= b then a else b }

  // ---------------------------------------------------------------------
  // Characters

  /** `str.isspace()` for one character: the characters Python treats as
      whitespace, which are also those that `\s` matches in a `str` regex
      and that `str.strip()` removes. */
  predicate IsSpace(c: char) {
    var n := c as int;
    (9 <= n <= 13) || (28 <= n <= 32) || n == 0x85 || n == 0xA0 || n == 0x1680
    || (0x2000 <= n <= 0x200A) || n == 0x2028 || n == 0x2029 || n == 0x202F
    || n == 0x205F || n == 0x3000
  }

  predicate IsDigit(c: char) { '0' <= c <= '9' }

  predicate IsAsciiLetter(c: char) { ('a' <= c <= 'z') || ('A' <= c <= 'Z') }

  /** The class `[a-zA-Z0-9_]` used by the identifier checks. */
  predicate IsWordChar(c: char) { IsAsciiLetter(c) || IsDigit(c) || c == '_' }

  function LowerChar(c: char): char {
    if 'A' <= c <= 'Z' then (c as int + 32) as char else c
  }

  /** `str.lower()`, for ASCII letters. */
  function Lower(s: string): (r: string)
    ensures |r| == |s|
    ensures forall i :: 0 <= i < |s| ==> r[i] == LowerChar(s[i])
  {
    seq(|s|, i requires 0 <= i < |s| => LowerChar(s[i]))
  }

  // ---------------------------------------------------------------------
  // strip

  function StripLeft(s: string): (r: string)
    ensures |r| <= |s| && r == s[|s| - |r|..]
    ensures forall i :: 0 <= i < |s| - |r| ==> IsSpace(s[i])
    ensures r == [] || !IsSpace(r[0])
  {
    if s == [] || !IsSpace(s[0]) then s else StripLeft(s[1..])
  }

  function StripRight(s: string): (r: string)
    ensures |r| <= |s| && r == s[..|r|]
    ensures forall i :: |r| <= i < |s| ==> IsSpace(s[i])
    ensures r == [] || !IsSpace(r[|r| - 1])
  {
    if s == [] || !IsSpace(s[|s| - 1]) then s else StripRight(s[..|s| - 1])
  }

  /** `str.strip()`: the longest infix of `s` that neither starts nor ends
      with whitespace, all of whose removed characters are whitespace. */
  function Strip(s: string): (r: string)
    ensures r == [] || (!IsSpace(r[0]) && !IsSpace(r[|r| - 1]))
    ensures |r| <= |StripLeft(s)| && r == StripLeft(s)[..|r|]
  {
    StripRight(StripLeft(s))
  }

  /** A string that is empty or neither starts nor ends with whitespace is
      its own strip; in particular `strip` is idempotent. */
  lemma StripFixed(s: string)
    requires s == [] || (!IsSpace(s[0]) && !IsSpace(s[|s| - 1]))
    ensures Strip(s) == s
  {
  }

  lemma StripIdempotent(s: string)
    ensures Strip(Strip(s)) == Strip(s)
  {
    StripFixed(Strip(s));
  }

  // ---------------------------------------------------------------------
  // split and join on a one-character separator

  /** `s.split(sep)` for a one-character separator: never empty, and
      `"".split(sep) == [""]`. */
  function Split(s: string, sep: char): (parts: seq<string>)
    ensures |parts| >= 1
    ensures forall k :: 0 <= k < |parts| ==> sep !in parts[k]
  {
    if s == [] then [[]]
    else
      var rest := Split(s[1..], sep);
      if s[0] == sep then [[]] + rest else [[s[0]] + rest[0]] + rest[1..]
  }

  /** `sep.join(parts)`. */
  function Join(parts: seq<string>, sep: char): string {
    if parts == [] then []
    else if |parts| == 1 then parts[0]
    else parts[0] + [sep] + Join(parts[1..], sep)
  }

  /** Joining the parts of a split gives the string back. */
  lemma {:induction false} JoinSplit(s: string, sep: char)
    ensures Join(Split(s, sep), sep) == s
  {
    if s != [] {
      JoinSplit(s[1..], sep);
      var rest := Split(s[1..], sep);
      if s[0] == sep {
        assert Split(s, sep) == [[]] + rest;
        assert s == [sep] + s[1..];
      } else {
        if |rest| == 1 {
          assert Join(Split(s, sep), sep) == [s[0]] + rest[0];
        } else {
          assert Join(rest, sep) == rest[0] + [sep] + Join(rest[1..], sep);
          assert Join(Split(s, sep), sep) == [s[0]] + rest[0] + [sep] + Join(rest[1..], sep);
        }
      }
    }
  }

  /** Splitting a string with a known first character. */
  lemma SplitCons(c: char, t: string, sep: char)
    ensures Split([c] + t, sep)
            == if c == sep then [[]] + Split(t, sep)
               else [[c] + Split(t, sep)[0]] + Split(t, sep)[1..]
  {
    assert ([c] + t)[0] == c && ([c] + t)[1..] == t;
  }

  /** Splitting after a leading character other than the separator: the
      character joins the first part. */
  lemma SplitConsOther(c: char, t: string, sep: char, rt: seq<string>)
    requires c != sep && rt == Split(t, sep)
    ensures Split([c] + t, sep) == [[c] + rt[0]] + rt[1..]
  {
    SplitCons(c, t, sep);
  }

  /** A sequence of parts whose head grows by one character. */
  lemma ConsHead(c: char, ra: seq<string>, rb: seq<string>)
    requires ra != []
    ensures [[c] + (ra + rb)[0]] + (ra + rb)[1..] == ([[c] + ra[0]] + ra[1..]) + rb
  {
    assert (ra + rb)[0] == ra[0];
    assert (ra + rb)[1..] == ra[1..] + rb;
  }

  /** One character other than the separator in front of a split that is
      already known to split both sides. */
  lemma SplitAroundOther(c: char, a: string, b: string, sep: char, ra: seq<string>, rb: seq<string>)
    requires c != sep
    requires ra == Split(a, sep) && rb == Split(b, sep)
    requires Split(a + [sep] + b, sep) == ra + rb
    ensures Split([c] + (a + [sep] + b), sep) == Split([c] + a, sep) + rb
  {
    SplitConsOther(c, a + [sep] + b, sep, ra + rb);
    SplitConsOther(c, a, sep, ra);
    ConsHead(c, ra, rb);
  }

  /** Splitting after a leading separator: an empty part comes first. */
  lemma SplitConsSep(t: string, sep: char, rt: seq<string>)
    requires rt == Split(t, sep)
    ensures Split([sep] + t, sep) == [[]] + rt
  {
    SplitCons(sep, t, sep);
  }

  /** A separator in front of a split that is already known to split both
      sides. */
  lemma SplitAroundSep(a: string, b: string, sep: char, ra: seq<string>, rb: seq<string>)
    requires ra == Split(a, sep) && rb == Split(b, sep)
    requires Split(a + [sep] + b, sep) == ra + rb
    ensures Split([sep] + (a + [sep] + b), sep) == Split([sep] + a, sep) + rb
  {
    SplitConsSep(a + [sep] + b, sep, ra + rb);
    SplitConsSep(a, sep, ra);
  }

  /** The inductive step of `SplitAround`: what holds for the tail of `a`
      holds for `a`. */
  lemma SplitAroundCons(a: string, b: string, sep: char)
    requires a != []
    requires Split(a[1..] + [sep] + b, sep) == Split(a[1..], sep) + Split(b, sep)
    ensures Split(a + [sep] + b, sep) == Split(a, sep) + Split(b, sep)
  {
    var c, a1 := a[0], a[1..];
    assert a == [c] + a1;
    assert a + [sep] + b == [c] + (a1 + [sep] + b);
    if c == sep {
      SplitAroundSep(a1, b, sep, Split(a1, sep), Split(b, sep));
    } else {
      SplitAroundOther(c, a1, b, sep, Split(a1, sep), Split(b, sep));
    }
  }

  /** A split at a separator splits both sides. */
  lemma {:induction false} SplitAround(a: string, b: string, sep: char)
    ensures Split(a + [sep] + b, sep) == Split(a, sep) + Split(b, sep)
  {
    if a == [] {
      assert a + [sep] + b == [sep] + b;
      SplitCons(sep, b, sep);
    } else {
      SplitAround(a[1..], b, sep);
      SplitAroundCons(a, b, sep);
    }
  }

  /** A string without the separator is a single part. */
  lemma {:induction false} SplitNoSep(s: string, sep: char)
    requires sep !in s
    ensures Split(s, sep) == [s]
  {
    if s != [] {
      SplitNoSep(s[1..], sep);
      assert [s[0]] + s[1..] == s;
    }
  }

  /** Splitting a join gives the parts back when none holds the separator:
      the round trip that a text editor over a list of lines relies on. */
  lemma {:induction false} SplitJoin(parts: seq<string>, sep: char)
    requires |parts| >= 1
    requires forall k :: 0 <= k < |parts| ==> sep !in parts[k]
    ensures Split(Join(parts, sep), sep) == parts
  {
    if |parts| == 1 {
      SplitNoSep(parts[0], sep);
    } else {
      SplitJoin(parts[1..], sep);
      SplitAround(parts[0], Join(parts[1..], sep), sep);
      SplitNoSep(parts[0], sep);
      assert parts == [parts[0]] + parts[1..];
    }
  }

  // ---------------------------------------------------------------------
  // prefixes and containment

  predicate HasPrefix(s: string, p: string) { |p| <= |s| && s[..|p|] == p }

  /** `needle in hay` for strings: the needle occurs at some offset; the
      empty needle is in every string. */
  predicate Contains(hay: string, needle: string) {
    exists i | 0 <= i <= |hay| - |needle| :: OccursAt(hay, needle, i)
  }

  predicate OccursAt(hay: string, needle: string, i: nat) {
    i + |needle| <= |hay| && hay[i..i + |needle|] == needle
  }

  // ---------------------------------------------------------------------
  // int() and decimal digits

  predicate AllDigits(s: string) { forall i :: 0 <= i < |s| ==> IsDigit(s[i]) }

  /** `str.isdigit()`, for ASCII digits: non-empty and digits only. */
  predicate IsDigitString(s: string) { s != [] && AllDigits(s) }

  function DigitsValue(ds: string): nat
    requires AllDigits(ds)
  {
    if ds == [] then 0
    else DigitsValue(ds[..|ds| - 1]) * 10 + (ds[|ds| - 1] as int - '0' as int)
  }

  /** The body `int()` accepts after the sign: digits, with single
      underscores allowed between two digits. */
  predicate IsIntBody(t: string) {
    && t != []
    && IsDigit(t[0]) && IsDigit(t[|t| - 1])
    && (forall i :: 0 <= i < |t| ==> IsDigit(t[i]) || t[i] == '_')
    && (forall i :: 0 <= i < |t| - 1 ==> t[i] != '_' || t[i + 1] != '_')
  }

  function DropUnderscores(t: string): (r: string)
    ensures (forall i :: 0 <= i < |t| ==> IsDigit(t[i]) || t[i] == '_') ==> AllDigits(r)
    ensures '_' !in t ==> r == t
  {
    if t == [] then []
    else (if t[0] == '_' then [] else [t[0]]) + DropUnderscores(t[1..])
  }

  function BodyValue(t: string): nat
    requires IsIntBody(t)
  {
    DigitsValue(DropUnderscores(t))
  }

  /** `int(s)` for a `str`: surrounding whitespace, then an optional sign,
      then the digit body; `None` where Python raises `ValueError`. */
  function ParseInt(s: string): Option<int> {
    var t := Strip(s);
    if t != [] && (t[0] == '+' || t[0] == '-') then
      if IsIntBody(t[1..]) then
        var v: int := BodyValue(t[1..]);
        Some(if t[0] == '-' then -v else v)
      else None
    else if IsIntBody(t) then Some(BodyValue(t))
    else None
  }

  function DigitChar(d: nat): char
    requires d < 10
  {
    ('0' as int + d) as char
  }

  /** `str(n)` for a natural number. */
  function Decimal(n: nat): (r: string)
    ensures IsDigitString(r)
  {
    if n < 10 then [DigitChar(n)] else Decimal(n / 10) + [DigitChar(n % 10)]
  }

  lemma {:induction false} DecimalValue(n: nat)
    ensures DigitsValue(Decimal(n)) == n
  {
    if n >= 10 {
      DecimalValue(n / 10);
      var r := Decimal(n);
      assert r[..|r| - 1] == Decimal(n / 10);
    }
  }

  /** Printing then parsing a natural number gives it back. */
  lemma ParseIntDecimal(n: nat)
    ensures ParseInt(Decimal(n)) == Some(n)
  {
    var r := Decimal(n);
    assert !IsSpace(r[0]) && !IsSpace(r[|r| - 1]);
    StripFixed(r);
    assert r[0] != '+' && r[0] != '-';
    assert IsIntBody(r);
    assert '_' !in r by {
      forall i | 0 <= i < |r| ensures r[i] != '_' { assert IsDigit(r[i]); }
    }
    assert DropUnderscores(r) == r;
    DecimalValue(n);
  }

  // ---------------------------------------------------------------------
  // distinct elements

  /** No element occurs twice. */
  predicate Distinct<T(==)>(xs: seq<T>) {
    forall a, b :: 0 <= a < b < |xs| ==> xs[a] != xs[b]
  }

  function Elements<T>(xs: seq<T>): set<T> { set x | x in xs }

  /** A sequence has at most as many distinct elements as entries, and at
      least one when it is non-empty. */
  lemma {:induction false} ElementsBound<T>(xs: seq<T>)
    ensures |Elements(xs)| <= |xs|
    ensures xs != [] ==> |Elements(xs)| >= 1
  {
    if xs != [] {
      ElementsBound(xs[1..]);
      assert Elements(xs) == Elements(xs[1..]) + {xs[0]};
      assert xs[0] in Elements(xs);
    }
  }

  /** A sequence without repeats has as many distinct elements as
      entries. */
  lemma {:induction false} DistinctCard<T>(xs: seq<T>)
    requires Distinct(xs)
    ensures |Elements(xs)| == |xs|
  {
    if xs != [] {
      assert Distinct(xs[1..]) by {
        forall a, b | 0 <= a < b < |xs| - 1 ensures xs[1..][a] != xs[1..][b] {
          assert xs[1..][a] == xs[a + 1] && xs[1..][b] == xs[b + 1];
        }
      }
      DistinctCard(xs[1..]);
      assert Elements(xs) == Elements(xs[1..]) + {xs[0]};
      assert xs[0] !in Elements(xs[1..]) by {
        forall b | 0 <= b < |xs| - 1 ensures xs[1..][b] != xs[0] {
          assert xs[1..][b] == xs[b + 1];
        }
      }
    }
  }
}
