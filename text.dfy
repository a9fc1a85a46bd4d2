/**
 * Text helpers shared by the formatting code of the app: decimal rendering of
 * non-negative integers (JavaScript's Number.prototype.toString for such
 * values), String.prototype.padStart, and splitting on a separator character.
 * Each rendering function comes with the parser that undoes it.
 */
module Text {

  datatype Option<T> = None | Some(value: T)

  predicate IsDigit(c: char) {
    '0' <= c <= '9'
  }

  predicate AllDigits(s: string) {
    forall i :: 0 <= i < |s| ==> IsDigit(s[i])
  }

  function DigitValue(c: char): (d: nat)
    requires IsDigit(c)
    ensures d < 10
  {
    (c as int) - ('0' as int)
  }

  function DigitChar(d: nat): (c: char)
    requires d < 10
    ensures IsDigit(c) && DigitValue(c) == d
  {
    (('0' as int) + d) as char
  }

  /** Reads a string of decimal digits, most significant first. */
  function ParseDecimal(s: string): nat
    requires AllDigits(s)
  {
    if s == [] then 0 else ParseDecimal(s[..|s| - 1]) * 10 + DigitValue(s[|s| - 1])
  }

  /** `n.toString()` for a non-negative integer. */
  function ToDecimal(n: nat): (s: string)
    ensures AllDigits(s) && ParseDecimal(s) == n
    ensures 1 <= |s|
    ensures |s| == 1 <==> n < 10
    ensures n < 100 ==> |s| <= 2
    ensures s[0] == '0' ==> n == 0
  {
    if n < 10 then [DigitChar(n)]
    else
      var s := ToDecimal(n / 10) + [DigitChar(n % 10)];
      assert s[..|s| - 1] == ToDecimal(n / 10);
      s
  }

  /** `s.padStart(width, fill)` with a one-character fill string. */
  function PadStart(s: string, width: nat, fill: char): (r: string)
    ensures |r| == if |s| >= width then |s| else width
    ensures r[|r| - |s|..] == s
    ensures forall i :: 0 <= i < |r| - |s| ==> r[i] == fill
    decreases width - |s|
  {
    if |s| >= width then s else PadStart([fill] + s, width, fill)
  }

  /**
   * `n.toString().padStart(2, '0')`: the two-digit field used by every clock
   * display of the app (PadTwoIsPadStart shows it is that expression).
   */
  function PadTwo(n: nat): (r: string)
    ensures AllDigits(r) && ParseDecimal(r) == n
    ensures 2 <= |r|
    ensures n < 100 ==> |r| == 2
  {
    if n < 10 then
      var r := ['0', DigitChar(n)];
      assert r[..1] == ['0'] && ['0'][..0] == [];
      assert ParseDecimal(['0']) == 0;
      r
    else ToDecimal(n)
  }

  /** PadTwo is the decimal text padded on the left with '0' to two characters. */
  lemma PadTwoIsPadStart(n: nat)
    ensures PadTwo(n) == PadStart(ToDecimal(n), 2, '0')
  {
    if n < 10 {
      assert PadStart([DigitChar(n)], 2, '0') == PadStart(['0', DigitChar(n)], 2, '0');
    }
  }

  /** The UTF-16 code units of one character: two for a character beyond U+FFFF. */
  function Utf16Units(c: char): (n: nat)
    ensures n == (if c as int >= 0x10000 then 2 else 1)
  {
    if c as int >= 0x10000 then 2 else 1
  }

  /**
   * JavaScript's `length` of a string: its UTF-16 code units. It lies
   * between the number of characters and twice that, and equals the number
   * of characters exactly when no character lies beyond U+FFFF.
   */
  function Utf16Length(s: string): (n: nat)
    ensures |s| <= n <= 2 * |s|
    ensures n == |s| <==> forall i :: 0 <= i < |s| ==> s[i] as int < 0x10000
  {
    if s == [] then 0
    else
      var rest := Utf16Length(s[1..]);
      assert (forall i :: 0 <= i < |s| ==> s[i] as int < 0x10000)
          <==> s[0] as int < 0x10000 && (forall i :: 0 <= i < |s[1..]| ==> s[1..][i] as int < 0x10000) by {
        forall i | 0 < i < |s| ensures s[i] == s[1..][i - 1] { }
      }
      Utf16Units(s[0]) + rest
  }

  /** `s.split(sep)`: the pieces between occurrences of `sep`. */
  function Split(s: string, sep: char): (parts: seq<string>)
    ensures 1 <= |parts|
  {
    if s == [] then [[]]
    else if s[0] == sep then [[]] + Split(s[1..], sep)
    else
      var p := Split(s[1..], sep);
      [[s[0]] + p[0]] + p[1..]
  }

  /** Splitting a string whose first field `a` holds no separator. */
  lemma {:induction false} SplitAfterField(a: string, sep: char, t: string)
    requires sep !in a
    ensures Split(a + t, sep) == [a + Split(t, sep)[0]] + Split(t, sep)[1..]
  {
    if a != [] {
      assert (a + t)[1..] == a[1..] + t;
      SplitAfterField(a[1..], sep, t);
      assert [a[0]] + (a[1..] + Split(t, sep)[0]) == a + Split(t, sep)[0];
    } else {
      var p := Split(t, sep);
      assert a + t == t;
      assert a + p[0] == p[0];
      assert [p[0]] + p[1..] == p;
    }
  }

  /** The field `a` followed by the separator is split off whole. */
  lemma SplitField(a: string, sep: char, b: string)
    requires sep !in a
    ensures Split(a + [sep] + b, sep) == [a] + Split(b, sep)
  {
    assert a + [sep] + b == a + ([sep] + b);
    SplitAfterField(a, sep, [sep] + b);
    assert ([sep] + b)[1..] == b;
    assert Split([sep] + b, sep) == [[]] + Split(b, sep);
    assert a + [] == a;
  }

  /** A string without the separator is a single field. */
  lemma SplitWhole(a: string, sep: char)
    requires sep !in a
    ensures Split(a, sep) == [a]
  {
    SplitAfterField(a, sep, []);
    assert a + [] == a;
  }
}
