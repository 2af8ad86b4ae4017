/** The ECMAScript string built-ins the cookie layer relies on: `trim`,
    `split` on one character, `indexOf`, `Array.prototype.join` and the
    decimal rendering of an integral Number. */
module JsText {
  import opened Wrappers

  /** WhiteSpace or LineTerminator code points: what `String.prototype.trim` strips. */
  predicate IsTrimmable(c: char) {
    || c == '\t' || c == '\n' || c == '\U{000B}' || c == '\U{000C}' || c == '\r' || c == ' '
    || c == '\U{00A0}' || c == '\U{1680}' || ('\U{2000}' <= c <= '\U{200A}')
    || c == '\U{2028}' || c == '\U{2029}' || c == '\U{202F}' || c == '\U{205F}'
    || c == '\U{3000}' || c == '\U{FEFF}'
  }

  /** True when no code point of `s` is trimmable. */
  predicate NoTrimmable(s: string) {
    forall i :: 0 <= i < |s| ==> !IsTrimmable(s[i])
  }

  /** True when `s` is printable ASCII other than the space. */
  predicate Visible(s: string) {
    forall i :: 0 <= i < |s| ==> '!' <= s[i] <= '~'
  }

  /** Printable ASCII holds no white space. */
  lemma VisibleHasNoTrimmable(s: string)
    requires Visible(s)
    ensures NoTrimmable(s)
  {
  }

  /** Text without white space is left alone by `trim`. */
  lemma TrimOfSolid(s: string)
    requires NoTrimmable(s)
    ensures Trim(s) == s
  {
    var i, j := TrimIsMiddle(s);
    if i < j {
      assert !IsTrimmable(s[i]) && !IsTrimmable(s[j - 1]);
    }
  }

  /** Text made only of white space trims to nothing. */
  lemma BlankTrims(s: string)
    requires AllTrimmable(s)
    ensures Trim(s) == ""
  {
    var i, j := TrimIsMiddle(s);
    if i < j {
      assert IsTrimmable(s[i]);
    }
  }

  /** The decimal rendering of a number is never empty, holds no white space, and
      none of `;`, `=` and `%`. */
  lemma DecimalIsSolid(n: int)
    ensures IntToDecimal(n) != [] && NoTrimmable(IntToDecimal(n)) && Trim(IntToDecimal(n)) == IntToDecimal(n)
    ensures ';' !in IntToDecimal(n) && '=' !in IntToDecimal(n) && '%' !in IntToDecimal(n)
  {
    var d := IntToDecimal(n);
    assert Visible(d);
    VisibleHasNoTrimmable(d);
    TrimOfSolid(d);
  }

  /** True when every code point of `s` is trimmable. */
  predicate AllTrimmable(s: string) {
    forall i :: 0 <= i < |s| ==> IsTrimmable(s[i])
  }

  /** Leading white space removed: the result is the suffix of `s` that starts at its
      first non-trimmable code point. */
  function TrimStart(s: string): (r: string)
    ensures |r| <= |s| && r == s[|s| - |r|..]
    ensures AllTrimmable(s[..|s| - |r|])
    ensures r == [] || !IsTrimmable(r[0])
  {
    if s != [] && IsTrimmable(s[0]) then
      var t := s[1..];
      var r := TrimStart(t);
      assert r == s[|s| - |r|..] by {
        assert t[|t| - |r|..] == s[|s| - |r|..];
      }
      assert AllTrimmable(s[..|s| - |r|]) by {
        forall i | 0 <= i < |s| - |r|
          ensures IsTrimmable(s[i])
        {
          if i > 0 {
            assert s[i] == t[..|t| - |r|][i - 1];
          }
        }
      }
      r
    else s
  }

  /** Trailing white space removed: the result is the prefix of `s` that ends at its
      last non-trimmable code point. */
  function TrimEnd(s: string): (r: string)
    ensures |r| <= |s| && r == s[..|r|]
    ensures AllTrimmable(s[|r|..])
    ensures r == [] || !IsTrimmable(r[|r| - 1])
  {
    if s != [] && IsTrimmable(s[|s| - 1]) then TrimEnd(s[..|s| - 1]) else s
  }

  /** `String.prototype.trim`. */
  function Trim(s: string): string {
    TrimEnd(TrimStart(s))
  }

  /** `s.indexOf(c)`: the first position of `c`, `None` standing for -1. */
  function IndexOf(s: string, c: char): (r: Option<nat>)
    ensures r.None? <==> c !in s
    ensures r.Some? ==> r.value < |s| && s[r.value] == c && c !in s[..r.value]
  {
    if s == [] then None
    else if s[0] == c then Some(0)
    else match IndexOf(s[1..], c)
      case None => None
      case Some(i) => Some(i + 1)
  }

  /** `s.split(sep)` for a one-character separator: the pieces between occurrences
      of `sep`, always at least one (`"".split(";")` is `[""]`). */
  function Split(s: string, sep: char): (parts: seq<string>)
    ensures |parts| >= 1
    ensures forall i :: 0 <= i < |parts| ==> sep !in parts[i]
    decreases |s|
  {
    match IndexOf(s, sep)
    case None => [s]
    case Some(i) => [s[..i]] + Split(s[i + 1..], sep)
  }

  /** `parts.join(sep)`; the empty array joins to the empty string. */
  function Join(parts: seq<string>, sep: string): string {
    if |parts| == 0 then ""
    else if |parts| == 1 then parts[0]
    else parts[0] + sep + Join(parts[1..], sep)
  }

  /** The decimal digit for `d`. */
  function DigitChar(d: nat): (c: char)
    requires d < 10
    ensures '0' <= c <= '9' && c as int - '0' as int == d
  {
    ('0' as int + d) as char
  }

  /** Decimal rendering of a natural number, without leading zeros. */
  function NatToDecimal(n: nat): (r: string)
    ensures |r| >= 1 && (|r| > 1 ==> r[0] != '0')
    ensures forall i :: 0 <= i < |r| ==> '0' <= r[i] <= '9'
  {
    if n < 10 then [DigitChar(n)] else NatToDecimal(n / 10) + [DigitChar(n % 10)]
  }

  /** How `String(n)` renders an integral Number: its exact digits when the magnitude
      is at most 2^53, where every integer is a Number. */
  function IntToDecimal(n: int): (r: string)
    ensures forall i :: 0 <= i < |r| ==> r[i] == '-' || '0' <= r[i] <= '9'
  {
    if n < 0 then "-" + NatToDecimal(-n) else NatToDecimal(n)
  }

  /** The value a string of decimal digits denotes. */
  function DecimalValue(s: string): nat
    requires forall i :: 0 <= i < |s| ==> '0' <= s[i] <= '9'
  {
    if s == [] then 0 else 10 * DecimalValue(s[..|s| - 1]) + (s[|s| - 1] as int - '0' as int)
  }

  // ---- Properties of the built-ins -------------------------------------------------

  /** `trim` yields the middle part `s[i..j]` of `s`: only white space is dropped
      around it, and it neither starts nor ends with white space. */
  lemma TrimIsMiddle(s: string) returns (i: nat, j: nat)
    ensures i <= j <= |s| && Trim(s) == s[i..j]
    ensures AllTrimmable(s[..i]) && AllTrimmable(s[j..])
    ensures Trim(s) == [] || (!IsTrimmable(Trim(s)[0]) && !IsTrimmable(Trim(s)[|Trim(s)| - 1]))
  {
    var t := TrimStart(s);
    var u := TrimEnd(t);
    i := |s| - |t|;
    j := i + |u|;
    MiddleSlices(s, t, u);
  }

  /** Where a prefix `u` of a suffix `t` of `s` lies in `s`. */
  lemma MiddleSlices(s: string, t: string, u: string)
    requires |t| <= |s| && t == s[|s| - |t|..]
    requires |u| <= |t| && u == t[..|u|]
    ensures s[|s| - |t|..|s| - |t| + |u|] == u && s[|s| - |t| + |u|..] == t[|u|..]
    ensures u != [] ==> u[0] == t[0]
  {
  }

  /** Trimming twice is trimming once. */
  lemma TrimIdempotent(s: string)
    ensures Trim(Trim(s)) == Trim(s)
  {
    var _, _ := TrimIsMiddle(s);
    var t := Trim(s);
    if t != [] {
      assert TrimStart(t) == t;
      assert TrimEnd(t) == t;
    }
  }

  /** Leading white space does not change what `trimStart` keeps. */
  lemma {:induction false} TrimStartAfterSpace(w: string, x: string)
    requires AllTrimmable(w)
    ensures TrimStart(w + x) == TrimStart(x)
  {
    if w != [] {
      assert (w + x)[1..] == w[1..] + x;
      TrimStartAfterSpace(w[1..], x);
    } else {
      assert w + x == x;
    }
  }

  /** Trailing white space is removed only from the part after the last
      non-trimmable code point of `x`. */
  lemma {:induction false} TrimEndAfterWord(x: string, y: string)
    requires x != [] && !IsTrimmable(x[|x| - 1])
    ensures TrimEnd(x + y) == x + TrimEnd(y)
    decreases |y|
  {
    if y == [] {
      assert x + y == x;
    } else if IsTrimmable(y[|y| - 1]) {
      assert (x + y)[..|x + y| - 1] == x + y[..|y| - 1];
      TrimEndAfterWord(x, y[..|y| - 1]);
    }
  }

  /** A word followed by anything, after optional white space, trims to the word
      followed by the trailing-trimmed rest. */
  lemma TrimWordAndTail(w: string, x: string, y: string)
    requires AllTrimmable(w)
    requires x != [] && !IsTrimmable(x[0]) && !IsTrimmable(x[|x| - 1])
    ensures Trim(w + x + y) == x + TrimEnd(y)
  {
    assert w + x + y == w + (x + y);
    TrimStartAfterSpace(w, x + y);
    assert TrimStart(x + y) == x + y;
    TrimEndAfterWord(x, y);
  }

  /** A string free of white space is left alone by `trimEnd`. */
  lemma TrimEndOfSolid(y: string)
    requires NoTrimmable(y)
    ensures TrimEnd(y) == y
  {
  }

  /** `split` cuts a string only at the separator: joining the pieces back with it
      gives the string again. */
  lemma {:induction false} SplitThenJoin(s: string, sep: char)
    ensures Join(Split(s, sep), [sep]) == s
    decreases |s|
  {
    match IndexOf(s, sep)
    case None =>
    case Some(i) =>
      var rest := Split(s[i + 1..], sep);
      assert Split(s, sep) == [s[..i]] + rest;
      assert ([s[..i]] + rest)[1..] == rest;
      SplitThenJoin(s[i + 1..], sep);
      assert s == s[..i] + [sep] + s[i + 1..];
  }

  /** The first occurrence is where `indexOf` finds it. */
  lemma IndexOfFirst(s: string, c: char, k: nat)
    requires k < |s| && s[k] == c && c !in s[..k]
    ensures IndexOf(s, c) == Some(k)
  {
    assert c in s;
  }

  /** A string without the separator splits to itself alone. */
  lemma SplitOfPiece(s: string, sep: char)
    requires sep !in s
    ensures Split(s, sep) == [s]
  {
  }

  /** Splitting a string made of two parts around one separator splits each part. */
  lemma {:induction false} SplitAround(a: string, sep: char, b: string)
    ensures Split(a + [sep] + b, sep) == Split(a, sep) + Split(b, sep)
    decreases |a|
  {
    var k := IndexOf(a, sep);
    if k.None? {
      SplitAroundPiece(a, sep, b);
      SplitOfPiece(a, sep);
    } else {
      var i := k.value;
      var rest, tail := Split(a[i + 1..], sep), Split(b, sep);
      calc {
        Split(a + [sep] + b, sep);
      == { SplitAroundStep(a, sep, b, i); }
        [a[..i]] + Split(a[i + 1..] + [sep] + b, sep);
      == { SplitAround(a[i + 1..], sep, b); }
        [a[..i]] + (rest + tail);
      == { ConcatAssoc([a[..i]], rest, tail); }
        [a[..i]] + rest + tail;
      == { SplitAt(a, sep, i); }
        Split(a, sep) + tail;
      }
    }
  }

  lemma ConcatAssoc<T>(x: seq<T>, y: seq<T>, z: seq<T>)
    ensures x + (y + z) == x + y + z
  {
  }

  /** Where `indexOf` finds the separator, `split` cuts. */
  lemma SplitAt(a: string, sep: char, i: nat)
    requires IndexOf(a, sep) == Some(i)
    ensures Split(a, sep) == [a[..i]] + Split(a[i + 1..], sep)
  {
  }

  lemma SplitAroundPiece(a: string, sep: char, b: string)
    requires sep !in a
    ensures Split(a + [sep] + b, sep) == [a] + Split(b, sep)
  {
    var s := a + [sep] + b;
    assert s[..|a|] == a;
    IndexOfFirst(s, sep, |a|);
    assert s[|a| + 1..] == b;
  }

  lemma SplitAroundStep(a: string, sep: char, b: string, i: nat)
    requires IndexOf(a, sep) == Some(i)
    ensures Split(a + [sep] + b, sep) == [a[..i]] + Split(a[i + 1..] + [sep] + b, sep)
  {
    var s := a + [sep] + b;
    assert i < |a| && a[i] == sep && sep !in a[..i];
    assert s[..i] == a[..i] && s[i] == sep;
    IndexOfFirst(s, sep, i);
    assert Split(s, sep) == [s[..i]] + Split(s[i + 1..], sep);
    assert s[i + 1..] == a[i + 1..] + [sep] + b;
  }

  /** Appending one more part to a non-empty list appends the separator and the part. */
  lemma {:induction false} JoinSnoc(parts: seq<string>, sep: string, x: string)
    requires |parts| >= 1
    ensures Join(parts + [x], sep) == Join(parts, sep) + sep + x
  {
    if |parts| > 1 {
      assert (parts + [x])[1..] == parts[1..] + [x];
      JoinSnoc(parts[1..], sep, x);
    }
  }

  /** Decimal rendering loses nothing: reading the digits back gives the number. */
  lemma {:induction false} DecimalRoundTrip(n: nat)
    ensures DecimalValue(NatToDecimal(n)) == n
  {
    if n >= 10 {
      var r := NatToDecimal(n);
      assert r[..|r| - 1] == NatToDecimal(n / 10);
      DecimalRoundTrip(n / 10);
    }
  }
}
