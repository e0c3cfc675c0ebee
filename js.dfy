/**
  The fragment of JavaScript semantics the submit handler relies on:
  values as they come out of a parsed JSON body, truthiness (ToBoolean),
  `typeof … === 'string'`, and the string operations `trim`, `includes`
  and `split(sep)[0]`.

  JavaScript strings are sequences of UTF-16 code units, and `length`,
  `trim`, `includes` and `split` all work on code units, so a string is
  modelled as a sequence of them.
*/
module Js {

  /** One UTF-16 code unit. */
  newtype CodeUnit = x: int | 0 <= x < 0x1_0000

  /** A JavaScript string. */
  type JsString = seq<CodeUnit>

  /**
    A JavaScript value as a request handler sees it: `Undefined` is what
    reading a missing property yields, the other six are what a JSON
    document can hold. Numbers are kept as exact reals.
  */
  datatype JsValue =
    | Undefined
    | Null
    | Bool(b: bool)
    | Num(x: real)
    | Str(s: JsString)
    | Arr(elems: seq<JsValue>)
    | Obj(props: map<JsString, JsValue>)

  /** ToBoolean: what `if (v)`, `!v` and `v || w` test. */
  predicate Truthy(v: JsValue)
  {
    match v
    case Undefined => false
    case Null => false
    case Bool(b) => b
    case Num(x) => x != 0.0
    case Str(s) => s != []
    case Arr(_) => true
    case Obj(_) => true
  }

  /** `a || b`: `a` when it is truthy, otherwise `b`. */
  function Or(a: JsValue, b: JsValue): JsValue
  {
    if Truthy(a) then a else b
  }

  /** The only falsy values a JSON body can produce, plus undefined; every array and object is truthy, even an empty one. */
  lemma FalsyValues(v: JsValue)
    ensures !Truthy(v) <==> v in {Undefined, Null, Bool(false), Num(0.0), Str([])}
  {
  }

  /**
    The code units `String.prototype.trim` removes: the ECMAScript
    WhiteSpace code points (TAB, VT, FF, SP, NBSP, ZWNBSP and the Unicode
    space separators) and the LineTerminator code points (LF, CR, LS, PS).
  */
  predicate IsWhiteSpace(c: CodeUnit)
  {
    c == 0x09 || c == 0x0A || c == 0x0B || c == 0x0C || c == 0x0D ||
    c == 0x20 || c == 0xA0 || c == 0x1680 || (0x2000 <= c <= 0x200A) ||
    c == 0x2028 || c == 0x2029 || c == 0x202F || c == 0x205F ||
    c == 0x3000 || c == 0xFEFF
  }

  /** Every code unit of `s` from index `lo` up to (not including) `hi` is white space. */
  predicate WhiteSpaceBetween(s: JsString, lo: int, hi: int)
    requires 0 <= lo <= hi <= |s|
  {
    forall k :: lo <= k < hi ==> IsWhiteSpace(s[k])
  }

  /** Neither the first nor the last code unit is white space. */
  predicate Trimmed(s: JsString)
  {
    s == [] || (!IsWhiteSpace(s[0]) && !IsWhiteSpace(s[|s| - 1]))
  }

  /**
    Reference definition of trimming: `r` is what is left of `s` once a
    white-space prefix and a white-space suffix are cut off, and `r` itself
    neither starts nor ends with white space.
  */
  ghost predicate IsTrimOf(r: JsString, s: JsString)
  {
    exists i, j :: 0 <= i <= j <= |s| && r == s[i..j] &&
      WhiteSpaceBetween(s, 0, i) && WhiteSpaceBetween(s, j, |s|) && Trimmed(r)
  }

  /** Drops the leading white space. */
  function TrimStart(s: JsString): JsString
  {
    if s != [] && IsWhiteSpace(s[0]) then TrimStart(s[1..]) else s
  }

  /** What is left after `TrimStart` is a suffix that does not start with white space, and all it dropped is white space. */
  lemma {:induction false} TrimStartSpec(s: JsString)
    ensures |TrimStart(s)| <= |s| && TrimStart(s) == s[|s| - |TrimStart(s)|..]
    ensures WhiteSpaceBetween(s, 0, |s| - |TrimStart(s)|)
    ensures TrimStart(s) == [] || !IsWhiteSpace(TrimStart(s)[0])
  {
    if s != [] && IsWhiteSpace(s[0]) {
      var rest := s[1..];
      var t := TrimStart(rest);
      assert TrimStart(s) == t;
      TrimStartSpec(rest);
      var n := |s| - |t|;
      assert t == s[n..] by {
        assert t == rest[|rest| - |t|..];
        assert rest[|rest| - |t|..] == s[n..];
      }
      assert WhiteSpaceBetween(s, 0, n) by {
        forall k | 0 <= k < n ensures IsWhiteSpace(s[k]) {
          if k > 0 { assert s[k] == rest[k - 1]; }
        }
      }
    }
  }

  /** Drops the trailing white space. */
  function TrimEnd(s: JsString): JsString
  {
    if s != [] && IsWhiteSpace(s[|s| - 1]) then TrimEnd(s[..|s| - 1]) else s
  }

  /** What is left after `TrimEnd` is a prefix that does not end with white space, and all it dropped is white space. */
  lemma {:induction false} TrimEndSpec(s: JsString)
    ensures TrimEnd(s) <= s
    ensures WhiteSpaceBetween(s, |TrimEnd(s)|, |s|)
    ensures TrimEnd(s) == [] || !IsWhiteSpace(TrimEnd(s)[|TrimEnd(s)| - 1])
  {
    if s != [] && IsWhiteSpace(s[|s| - 1]) {
      TrimEndSpec(s[..|s| - 1]);
      forall k | |TrimEnd(s)| <= k < |s| ensures IsWhiteSpace(s[k]) {
        if k < |s| - 1 { assert s[k] == s[..|s| - 1][k]; }
      }
    }
  }

  /** `s.trim()`. */
  function Trim(s: JsString): JsString
  {
    TrimEnd(TrimStart(s))
  }

  /** `trim` meets the reference definition. */
  lemma TrimMeetsReference(s: JsString)
    ensures IsTrimOf(Trim(s), s)
  {
    var t := TrimStart(s);
    var r := TrimEnd(t);
    TrimStartSpec(s);
    TrimEndSpec(t);
    var i := |s| - |t|;
    var j := i + |r|;
    assert r == s[i..j] by { assert t == s[i..] && r == t[..|r|]; }
    WhiteSpaceAfterDrop(s, i, |r|);
    assert 0 <= i <= j <= |s| && r == s[i..j] &&
      WhiteSpaceBetween(s, 0, i) && WhiteSpaceBetween(s, j, |s|) && Trimmed(r);
  }

  /** White space at the end of `s[i..]` is white space at the end of `s`. */
  lemma WhiteSpaceAfterDrop(s: JsString, i: int, n: int)
    requires 0 <= i <= |s| && 0 <= n <= |s| - i
    requires WhiteSpaceBetween(s[i..], n, |s| - i)
    ensures WhiteSpaceBetween(s, i + n, |s|)
  {
    forall k | i + n <= k < |s| ensures IsWhiteSpace(s[k]) {
      assert s[k] == s[i..][k - i];
    }
  }

  /**
    A stretch of `s` that starts and ends with code units that are not
    white space lies between any white-space prefix and white-space suffix
    of `s`.
  */
  lemma WithinPadding(s: JsString, i: int, j: int, lo: int, hi: int)
    requires 0 <= i < j <= |s| && !IsWhiteSpace(s[i]) && !IsWhiteSpace(s[j - 1])
    requires 0 <= lo <= hi <= |s| && WhiteSpaceBetween(s, 0, lo) && WhiteSpaceBetween(s, hi, |s|)
    ensures lo <= i && j <= hi
  {
  }

  /** The cut points of a trim. */
  lemma TrimBounds(r: JsString, s: JsString) returns (i: int, j: int)
    requires IsTrimOf(r, s)
    ensures 0 <= i <= j <= |s| && r == s[i..j]
    ensures WhiteSpaceBetween(s, 0, i) && WhiteSpaceBetween(s, j, |s|) && Trimmed(r)
  {
    i, j :| 0 <= i <= j <= |s| && r == s[i..j] &&
      WhiteSpaceBetween(s, 0, i) && WhiteSpaceBetween(s, j, |s|) && Trimmed(r);
  }

  /** Cutting white space off both ends has exactly one outcome, so `Trim` is the reference definition. */
  lemma TrimUnique(r1: JsString, r2: JsString, s: JsString)
    requires IsTrimOf(r1, s) && IsTrimOf(r2, s)
    ensures r1 == r2
  {
    var i1, j1 := TrimBounds(r1, s);
    var i2, j2 := TrimBounds(r2, s);
    // A non-empty trim starts and ends at code units that are not white
    // space, so each trim lies within the other.
    if i1 < j1 {
      assert s[i1] == r1[0] && s[j1 - 1] == r1[|r1| - 1];
      WithinPadding(s, i1, j1, i2, j2);
    }
    if i2 < j2 {
      assert s[i2] == r2[0] && s[j2 - 1] == r2[|r2| - 1];
      WithinPadding(s, i2, j2, i1, j1);
    }
  }

  /** Trimming a trimmed string changes nothing: stored names and emails are fixed points of `trim`. */
  lemma TrimIdempotent(s: JsString)
    ensures Trim(Trim(s)) == Trim(s)
  {
    var r := Trim(s);
    TrimMeetsReference(s);
    TrimMeetsReference(r);
    assert r == r[0..|r|];
    assert IsTrimOf(r, r);
    TrimUnique(Trim(r), r, r);
  }

  /** The strings `trim` leaves unchanged are exactly those with no white space at either end. */
  lemma TrimFixedPoints(s: JsString)
    ensures Trim(s) == s <==> Trimmed(s)
  {
    TrimMeetsReference(s);
    if Trimmed(s) {
      assert s == s[0..|s|];
      assert IsTrimOf(s, s);
      TrimUnique(Trim(s), s, s);
    }
  }

  /** A string made only of white space trims to the empty string. */
  lemma TrimAllWhiteSpace(s: JsString)
    requires WhiteSpaceBetween(s, 0, |s|)
    ensures Trim(s) == []
  {
    var r := Trim(s);
    TrimMeetsReference(s);
    var i, j := TrimBounds(r, s);
  }

  /** Trimming never removes or adds a code unit that is not white space: `s.includes(c)` and `s.trim().includes(c)` agree. */
  lemma IncludesSurvivesTrim(s: JsString, c: CodeUnit)
    requires !IsWhiteSpace(c)
    ensures c in s <==> c in Trim(s)
  {
    TrimMeetsReference(s);
    IncludesSurvivesCut(Trim(s), s, c);
  }

  /** A code unit that is not white space is in `s` exactly when it is in a trim of `s`. */
  lemma IncludesSurvivesCut(r: JsString, s: JsString, c: CodeUnit)
    requires IsTrimOf(r, s) && !IsWhiteSpace(c)
    ensures c in s <==> c in r
  {
    var i, j := TrimBounds(r, s);
    if c in s {
      var k :| 0 <= k < |s| && s[k] == c;
      WithinPadding(s, k, k + 1, i, j);
      assert r[k - i] == c;
    }
    if c in r {
      var m :| 0 <= m < |r| && r[m] == c;
      assert s[i + m] == c;
    }
  }

  /** `trim` cuts exactly the padding: a string with no white space at either end, padded with white space on both sides, trims back to itself. */
  lemma TrimPadded(before: JsString, r: JsString, after: JsString)
    requires WhiteSpaceBetween(before, 0, |before|) && WhiteSpaceBetween(after, 0, |after|)
    requires Trimmed(r)
    ensures Trim(before + r + after) == r
  {
    var s := before + r + after;
    var i, j := |before|, |before| + |r|;
    assert s[i..j] == r;
    assert WhiteSpaceBetween(s, 0, i) by {
      forall k | 0 <= k < i ensures IsWhiteSpace(s[k]) { assert s[k] == before[k]; }
    }
    assert WhiteSpaceBetween(s, j, |s|) by {
      forall k | j <= k < |s| ensures IsWhiteSpace(s[k]) { assert s[k] == after[k - j]; }
    }
    assert IsTrimOf(r, s);
    TrimMeetsReference(s);
    TrimUnique(Trim(s), r, s);
  }

  /** `s.split(sep)[0]`: the part of `s` before the first `sep`, or all of `s` when it holds none. */
  function SplitFirst(s: JsString, sep: CodeUnit): JsString
  {
    if s == [] || s[0] == sep then [] else [s[0]] + SplitFirst(s[1..], sep)
  }

  /** The first field is a prefix of `s` without `sep`, followed in `s` by `sep` or by nothing. */
  lemma {:induction false} SplitFirstSpec(s: JsString, sep: CodeUnit)
    ensures SplitFirst(s, sep) <= s
    ensures sep !in SplitFirst(s, sep)
    ensures |SplitFirst(s, sep)| < |s| ==> s[|SplitFirst(s, sep)|] == sep
  {
    if s != [] && s[0] != sep {
      SplitFirstSpec(s[1..], sep);
    }
  }

  /** Whatever follows the first separator does not affect the first field. */
  lemma SplitFirstAt(a: JsString, sep: CodeUnit, rest: JsString)
    requires sep !in a
    ensures SplitFirst(a + [sep] + rest, sep) == a
  {
    var s := a + [sep] + rest;
    var r := SplitFirst(s, sep);
    SplitFirstSpec(s, sep);
    assert s[..|a|] == a && s[|a|] == sep;
    assert |r| <= |a| ==> r == a[..|r|];
  }
}
