/** Character classes and string helpers shared by the command modules:
    Rust's `trim`, `split_whitespace`, `join`, and decimal formatting. */
module Text {

  /** Unicode White_Space, the class `char::is_whitespace`, `str::trim` and
      `str::split_whitespace` use. */
  predicate IsWhitespace(c: char) {
    ('\t' <= c <= '\r') || c == ' ' || c == '\U{0085}' || c == '\U{00A0}'
    || c == '\U{1680}' || ('\U{2000}' <= c <= '\U{200A}') || c == '\U{2028}'
    || c == '\U{2029}' || c == '\U{202F}' || c == '\U{205F}' || c == '\U{3000}'
  }

  predicate IsAsciiDigit(c: char) { '0' <= c <= '9' }

  predicate IsAsciiAlphanumeric(c: char) {
    'A' <= c <= 'Z' || 'a' <= c <= 'z' || IsAsciiDigit(c)
  }

  function ToUpperAscii(c: char): char {
    if 'a' <= c <= 'z' then (c as int - 32) as char else c
  }

  function UpperAscii(s: string): string {
    seq(|s|, i requires 0 <= i < |s| => ToUpperAscii(s[i]))
  }

  predicate IsBlank(s: string) {
    forall i :: 0 <= i < |s| ==> IsWhitespace(s[i])
  }

  function TrimStart(s: string): (r: string)
    ensures r == [] || !IsWhitespace(r[0])
    decreases |s|
  {
    if s != [] && IsWhitespace(s[0]) then TrimStart(s[1..]) else s
  }

  function TrimEnd(s: string): string
    decreases |s|
  {
    if s != [] && IsWhitespace(s[|s| - 1]) then TrimEnd(s[..|s| - 1]) else s
  }

  /** Concatenation is associative; stated once so that proofs about long
      concatenations can name the step. */
  lemma Assoc<T>(a: seq<T>, b: seq<T>, c: seq<T>)
    ensures (a + b) + c == a + (b + c)
  {
  }

  /** Dropping the last element of `a + b` drops the last element of `b`. */
  lemma TakeAppend<T>(a: seq<T>, b: seq<T>)
    requires b != []
    ensures (a + b)[..|a + b| - 1] == a + b[..|b| - 1] && (a + b)[|a + b| - 1] == b[|b| - 1]
  {
  }

  /** `str::trim`. */
  function Trim(s: string): string {
    TrimEnd(TrimStart(s))
  }

  /** A string with no whitespace at either end trims to itself. */
  lemma TrimUntouched(s: string)
    requires s != [] && !IsWhitespace(s[0]) && !IsWhitespace(s[|s| - 1])
    ensures Trim(s) == s
  {
  }

  lemma {:induction false} TrimStartBlank(s: string)
    ensures TrimStart(s) == [] <==> IsBlank(s)
    decreases |s|
  {
    if s != [] && IsWhitespace(s[0]) {
      TrimStartBlank(s[1..]);
      assert IsBlank(s) <==> IsBlank(s[1..]) by {
        if IsBlank(s[1..]) {
          forall i | 0 <= i < |s| ensures IsWhitespace(s[i]) {
            if i > 0 { assert s[i] == s[1..][i - 1]; }
          }
        }
      }
    }
  }

  lemma {:induction false} TrimEndEmpty(s: string)
    ensures TrimEnd(s) == [] <==> IsBlank(s)
    decreases |s|
  {
    if s != [] && IsWhitespace(s[|s| - 1]) {
      var p := s[..|s| - 1];
      TrimEndEmpty(p);
      assert IsBlank(s) <==> IsBlank(p) by {
        if IsBlank(p) {
          forall i | 0 <= i < |s| ensures IsWhitespace(s[i]) {
            if i < |s| - 1 { assert s[i] == p[i]; }
          }
        }
      }
    }
  }

  /** A string trims to nothing exactly when it is made of whitespace only. */
  lemma TrimEmptyIffBlank(s: string)
    ensures Trim(s) == [] <==> IsBlank(s)
  {
    TrimStartBlank(s);
    TrimEndEmpty(TrimStart(s));
  }

  /** A word of `split_whitespace`: non-empty, no whitespace inside. */
  predicate IsWord(w: string) {
    w != [] && forall i :: 0 <= i < |w| ==> !IsWhitespace(w[i])
  }

  /** Length of the run of non-whitespace characters that starts `s`. */
  function WordLength(s: string): (n: nat)
    ensures n <= |s|
    ensures forall i :: 0 <= i < n ==> !IsWhitespace(s[i])
    ensures n < |s| ==> IsWhitespace(s[n])
  {
    if s == [] || IsWhitespace(s[0]) then 0 else 1 + WordLength(s[1..])
  }

  /** `str::split_whitespace`: the maximal runs of non-whitespace, in order. */
  function SplitWhitespace(s: string): (ws: seq<string>)
    ensures forall k :: 0 <= k < |ws| ==> IsWord(ws[k])
    decreases |s|
  {
    if s == [] then []
    else if IsWhitespace(s[0]) then SplitWhitespace(s[1..])
    else
      var n := WordLength(s);
      [s[..n]] + SplitWhitespace(s[n..])
  }

  /** `slice::join`: the parts with `sep` between neighbours. */
  function Join(parts: seq<string>, sep: string): string {
    if |parts| == 0 then ""
    else if |parts| == 1 then parts[0]
    else parts[0] + sep + Join(parts[1..], sep)
  }

  /** A join of non-empty parts starts with the first part's first character
      and ends with the last part's last character. */
  lemma {:induction false} JoinEnds(parts: seq<string>, sep: string)
    requires parts != [] && forall k :: 0 <= k < |parts| ==> parts[k] != []
    ensures Join(parts, sep) != []
    ensures Join(parts, sep)[0] == parts[0][0]
    ensures Join(parts, sep)[|Join(parts, sep)| - 1] == parts[|parts| - 1][|parts[|parts| - 1]| - 1]
  {
    if |parts| > 1 {
      JoinEnds(parts[1..], sep);
    }
  }

  lemma {:induction false} JoinSnoc(parts: seq<string>, last: string, sep: string)
    requires parts != []
    ensures Join(parts + [last], sep) == Join(parts, sep) + sep + last
  {
    if |parts| == 1 {
      assert parts + [last] == [parts[0], last];
    } else {
      assert (parts + [last])[1..] == parts[1..] + [last];
      JoinSnoc(parts[1..], last, sep);
    }
  }

  lemma WordSplitsToItself(w: string)
    requires IsWord(w)
    ensures SplitWhitespace(w) == [w]
  {
    assert WordLength(w) == |w|;
    assert w[..|w|] == w;
    assert w[|w|..] == [];
  }

  /** Splitting words joined by single spaces gives the words back. */
  lemma {:induction false} SplitJoin(ws: seq<string>)
    requires forall k :: 0 <= k < |ws| ==> IsWord(ws[k])
    ensures SplitWhitespace(Join(ws, " ")) == ws
  {
    if |ws| == 1 {
      WordSplitsToItself(ws[0]);
    } else if |ws| > 1 {
      var w, rest := ws[0], Join(ws[1..], " ");
      var s := w + " " + rest;
      assert s[|w|] == ' ';
      assert forall i :: 0 <= i < |w| ==> s[i] == w[i];
      assert WordLength(s) == |w|;
      assert s[..|w|] == w;
      assert s[|w|..] == " " + rest;
      assert (" " + rest)[1..] == rest;
      SplitJoin(ws[1..]);
      assert ws == [w] + ws[1..];
    }
  }

  /** How many words begin in `s`; `afterSpace` says whether the character
      before `s` was whitespace (or there was none). */
  function WordStarts(s: string, afterSpace: bool): nat {
    if s == [] then 0
    else (if afterSpace && !IsWhitespace(s[0]) then 1 else 0) + WordStarts(s[1..], IsWhitespace(s[0]))
  }

  lemma {:induction false} WordStartsInsideWord(s: string)
    ensures WordStarts(s, false) == WordStarts(s[WordLength(s)..], true)
    decreases |s|
  {
    if s != [] && !IsWhitespace(s[0]) {
      WordStartsInsideWord(s[1..]);
      assert s[1..][WordLength(s[1..])..] == s[WordLength(s)..];
    }
  }

  /** `split_whitespace` yields one word per word start. */
  lemma {:induction false} SplitCountsWordStarts(s: string)
    ensures |SplitWhitespace(s)| == WordStarts(s, true)
    decreases |s|
  {
    if s != [] {
      if IsWhitespace(s[0]) {
        SplitCountsWordStarts(s[1..]);
      } else {
        var n := WordLength(s);
        WordStartsInsideWord(s[1..]);
        assert s[1..][WordLength(s[1..])..] == s[n..];
        SplitCountsWordStarts(s[n..]);
      }
    }
  }

  lemma WordStartsAfterSpace(s: string)
    ensures WordStarts(s, false) <= WordStarts(s, true) <= WordStarts(s, false) + 1
  {
  }

  lemma {:induction false} TrimStartWordStarts(s: string)
    ensures WordStarts(TrimStart(s), true) == WordStarts(s, true)
    decreases |s|
  {
    if s != [] && IsWhitespace(s[0]) {
      TrimStartWordStarts(s[1..]);
    }
  }

  lemma {:induction false} DropTrailingSpaceWordStarts(s: string, p: bool)
    requires s != [] && IsWhitespace(s[|s| - 1])
    ensures WordStarts(s[..|s| - 1], p) == WordStarts(s, p)
    decreases |s|
  {
    if |s| > 1 {
      DropTrailingSpaceWordStarts(s[1..], IsWhitespace(s[0]));
      assert s[..|s| - 1][1..] == s[1..][..|s| - 2];
    }
  }

  lemma {:induction false} TrimEndWordStarts(s: string, p: bool)
    ensures WordStarts(TrimEnd(s), p) == WordStarts(s, p)
    decreases |s|
  {
    if s != [] && IsWhitespace(s[|s| - 1]) {
      DropTrailingSpaceWordStarts(s, p);
      TrimEndWordStarts(s[..|s| - 1], p);
    }
  }

  /** Trimming never changes how many words a string splits into. */
  lemma TrimKeepsWordCount(s: string)
    ensures |SplitWhitespace(Trim(s))| == |SplitWhitespace(s)|
  {
    TrimStartWordStarts(s);
    TrimEndWordStarts(TrimStart(s), true);
    SplitCountsWordStarts(s);
    SplitCountsWordStarts(Trim(s));
  }

  /** Every character of a join comes from one of the parts or from the separator. */
  lemma {:induction false} JoinChars(parts: seq<string>, sep: string, i: nat)
    requires i < |Join(parts, sep)|
    ensures Join(parts, sep)[i] in sep
      || exists k, j :: 0 <= k < |parts| && 0 <= j < |parts[k]| && Join(parts, sep)[i] == parts[k][j]
  {
    var s := Join(parts, sep);
    if |parts| == 1 {
      assert s[i] == parts[0][i];
    } else {
      var rest := Join(parts[1..], sep);
      assert s == parts[0] + sep + rest;
      if i < |parts[0]| {
        assert s[i] == parts[0][i];
      } else if i < |parts[0]| + |sep| {
        assert s[i] == sep[i - |parts[0]|];
      } else {
        var i' := i - |parts[0]| - |sep|;
        assert s[i] == rest[i'];
        JoinChars(parts[1..], sep, i');
        if !(rest[i'] in sep) {
          var k, j :| 0 <= k < |parts[1..]| && 0 <= j < |parts[1..][k]| && rest[i'] == parts[1..][k][j];
          assert parts[1..][k] == parts[k + 1];
        }
      }
    }
  }

  function DigitChar(d: nat): char
    requires d < 10
  {
    ('0' as int + d) as char
  }

  predicate AllDigits(s: string) {
    forall i :: 0 <= i < |s| ==> IsAsciiDigit(s[i])
  }

  /** Decimal digits of `n`, as Rust's `{}` prints a non-negative integer. */
  function NatToString(n: nat): (r: string)
    ensures |r| >= 1 && AllDigits(r)
    decreases n
  {
    if n < 10 then [DigitChar(n)] else NatToString(n / 10) + [DigitChar(n % 10)]
  }

  /** `{}` of a signed integer: a minus sign before the digits when negative. */
  function IntToString(i: int): string {
    if i < 0 then "-" + NatToString(-i) else NatToString(i)
  }

  /** The value a string of decimal digits denotes. */
  function DigitsValue(s: string): nat
    requires AllDigits(s)
  {
    if s == [] then 0 else DigitsValue(s[..|s| - 1]) * 10 + (s[|s| - 1] as int - '0' as int)
  }

  lemma {:induction false} DigitsValueOfNatToString(n: nat)
    ensures DigitsValue(NatToString(n)) == n
    decreases n
  {
    if n >= 10 {
      var r := NatToString(n);
      assert r[..|r| - 1] == NatToString(n / 10);
      DigitsValueOfNatToString(n / 10);
    }
  }

  function Zeros(k: nat): (r: string)
    ensures |r| == k && AllDigits(r)
  {
    seq(k, _ => '0')
  }

  /** `{:0w}`: the digits of `n`, left-padded with zeros to at least `width`. */
  function PadDecimal(n: nat, width: nat): (r: string)
    ensures AllDigits(r)
    ensures |r| == if |NatToString(n)| >= width then |NatToString(n)| else width
  {
    var d := NatToString(n);
    if |d| >= width then d else Zeros(width - |d|) + d
  }

  lemma {:induction false} LeadingZeros(k: nat, d: string)
    requires AllDigits(d)
    ensures AllDigits(Zeros(k) + d) && DigitsValue(Zeros(k) + d) == DigitsValue(d)
    decreases |d|
  {
    var z := Zeros(k);
    if d == [] {
      assert z + d == z;
      ZerosValue(k);
    } else {
      var p := d[..|d| - 1];
      assert (z + d)[..|z + d| - 1] == z + p;
      LeadingZeros(k, p);
    }
  }

  lemma {:induction false} ZerosValue(k: nat)
    ensures DigitsValue(Zeros(k)) == 0
    decreases k
  {
    if k > 0 {
      assert Zeros(k)[..k - 1] == Zeros(k - 1);
      ZerosValue(k - 1);
    }
  }

  /** Reading a zero-padded field back gives the number that was printed. */
  lemma PadDecimalRoundTrip(n: nat, width: nat)
    ensures DigitsValue(PadDecimal(n, width)) == n
  {
    var d := NatToString(n);
    DigitsValueOfNatToString(n);
    if |d| < width {
      LeadingZeros(width - |d|, d);
      assert PadDecimal(n, width) == Zeros(width - |d|) + d;
    } else {
      assert PadDecimal(n, width) == d;
    }
  }

  lemma {:induction false} NatToStringShort(n: nat, k: nat)
    requires n < Pow10(k) && k >= 1
    ensures |NatToString(n)| <= k
    decreases k
  {
    if n >= 10 {
      NatToStringShort(n / 10, k - 1);
    }
  }

  function Pow10(k: nat): (r: nat)
    ensures r >= 1
  {
    if k == 0 then 1 else 10 * Pow10(k - 1)
  }
}
