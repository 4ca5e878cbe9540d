/**
 * The three pieces of Ruby string behaviour that the Release record relies on:
 * ActiveSupport's `blank?`/`present?`, `String#split` with a one-character
 * separator, and `String#to_i` in base 10.
 */
module RubyText {
  import opened Wrappers

  // ---------------------------------------------------------------------------
  // blank? and present?
  // ---------------------------------------------------------------------------

  /** The characters `[[:space:]]` matches in a Unicode string (the White_Space property). */
  predicate IsSpace(c: char) {
    ('\t' <= c <= '\r') || c == ' ' || c == '\U{85}' || c == '\U{A0}' || c == '\U{1680}'
    || ('\U{2000}' <= c <= '\U{200A}') || c == '\U{2028}' || c == '\U{2029}'
    || c == '\U{202F}' || c == '\U{205F}' || c == '\U{3000}'
  }

  /** `String#blank?`: empty or white space only. */
  predicate BlankText(s: string) {
    forall i :: 0 <= i < |s| ==> IsSpace(s[i])
  }

  /** `blank?` on a nilable string column: nil is blank too. */
  predicate Blank(v: Option<string>) {
    v.None? || BlankText(v.value)
  }

  /** `present?` is the negation of `blank?`. */
  predicate Present(v: Option<string>) {
    !Blank(v)
  }

  /** A string is present exactly when it holds a character that is not white space. */
  lemma PresentIffNonSpace(s: string)
    ensures Present(Some(s)) <==> exists i :: 0 <= i < |s| && !IsSpace(s[i])
  {
  }

  // ---------------------------------------------------------------------------
  // String#split(sep) with a one-character, non-space separator
  // ---------------------------------------------------------------------------

  /** Joins parts with the separator between them (`Array#join(sep)`). */
  function Join(parts: seq<string>, sep: char): string {
    if |parts| == 0 then ""
    else if |parts| == 1 then parts[0]
    else parts[0] + [sep] + Join(parts[1..], sep)
  }

  /** Every field between two separators, the empty ones included. */
  function Fields(s: string, sep: char): (r: seq<string>)
    ensures |r| >= 1
    ensures forall i :: 0 <= i < |r| ==> sep !in r[i]
  {
    if |s| == 0 then [""]
    else
      var rest := Fields(s[1..], sep);
      if s[0] == sep then [""] + rest
      else [[s[0]] + rest[0]] + rest[1..]
  }

  /** Ruby drops the empty fields at the end of the result. */
  function DropTrailingEmpty(p: seq<string>): (r: seq<string>)
    ensures r <= p
    ensures |r| > 0 ==> r[|r| - 1] != ""
    ensures forall i :: |r| <= i < |p| ==> p[i] == ""
  {
    if |p| == 0 then []
    else if p[|p| - 1] == "" then DropTrailingEmpty(p[..|p| - 1])
    else p
  }

  /** `s.split(sep)` for a separator other than a space (which Ruby treats specially). */
  function Split(s: string, sep: char): (r: seq<string>)
    requires sep != ' '
    ensures forall i :: 0 <= i < |r| ==> sep !in r[i]
    ensures |r| > 0 ==> r[|r| - 1] != ""
  {
    DropTrailingEmpty(Fields(s, sep))
  }

  /** Joining the fields gives the string back. */
  lemma {:induction false} JoinFields(s: string, sep: char)
    ensures Join(Fields(s, sep), sep) == s
    decreases |s|
  {
    if |s| > 0 {
      var rest := Fields(s[1..], sep);
      JoinFields(s[1..], sep);
      if s[0] == sep {
        assert Fields(s, sep) == [""] + rest;
        assert ([""] + rest)[1..] == rest;
      } else {
        var r := Fields(s, sep);
        assert r == [[s[0]] + rest[0]] + rest[1..];
        if |rest| == 1 {
          assert Join(rest, sep) == rest[0];
        } else {
          assert r[1..] == rest[1..];
          assert Join(rest, sep) == rest[0] + [sep] + Join(rest[1..], sep);
        }
      }
    }
  }

  /** Splitting a join of separator-free parts gives the parts back. */
  lemma {:induction false} FieldsJoin(parts: seq<string>, sep: char)
    requires |parts| >= 1
    requires forall i :: 0 <= i < |parts| ==> sep !in parts[i]
    ensures Fields(Join(parts, sep), sep) == parts
    decreases |parts|, |parts[0]|
  {
    var p0 := parts[0];
    if |p0| == 0 {
      if |parts| > 1 {
        FieldsJoin(parts[1..], sep);
        var s := Join(parts, sep);
        assert s == [sep] + Join(parts[1..], sep);
        assert s[1..] == Join(parts[1..], sep);
        assert parts == [""] + parts[1..];
      }
    } else {
      var parts' := [p0[1..]] + parts[1..];
      assert forall i :: 0 <= i < |parts'| ==> sep !in parts'[i] by {
        forall i | 0 <= i < |parts'| ensures sep !in parts'[i] {
          if i == 0 {
            assert forall c :: c in p0[1..] ==> c in p0;
          } else {
            assert parts'[i] == parts[i];
          }
        }
      }
      FieldsJoin(parts', sep);
      var s := Join(parts, sep);
      if |parts| == 1 {
        assert s == p0;
        assert Join(parts', sep) == p0[1..];
      } else {
        assert parts'[1..] == parts[1..];
        assert s == p0 + [sep] + Join(parts[1..], sep);
        assert Join(parts', sep) == p0[1..] + [sep] + Join(parts[1..], sep);
      }
      assert s[0] == p0[0] && s[0] != sep;
      assert s[1..] == Join(parts', sep);
      assert [p0[0]] + p0[1..] == p0;
      assert [p0] + parts[1..] == parts;
    }
  }

  // ---------------------------------------------------------------------------
  // String#to_i (base 10)
  // ---------------------------------------------------------------------------

  /** The white space `to_i` skips before a number: the C library's isspace. */
  predicate IsAsciiSpace(c: char) {
    ('\t' <= c <= '\r') || c == ' '
  }

  predicate IsDigit(c: char) {
    '0' <= c <= '9'
  }

  predicate AllDigits(ds: string) {
    forall i :: 0 <= i < |ds| ==> IsDigit(ds[i])
  }

  /** The value of a decimal numeral, most significant digit first; the empty numeral is 0. */
  function DecimalValue(ds: string): nat
    requires AllDigits(ds)
  {
    if |ds| == 0 then 0
    else DecimalValue(ds[..|ds| - 1]) * 10 + ((ds[|ds| - 1] as int) - ('0' as int))
  }

  /**
   * The digits of the longest numeral at the start of `t`, where a single
   * underscore may stand between two digits; the underscores are dropped.
   */
  function LeadingDigits(t: string): (ds: string)
    ensures AllDigits(ds)
    ensures |ds| <= |t|
    ensures |t| > 0 && IsDigit(t[0]) ==> |ds| > 0 && ds[0] == t[0]
    ensures |t| == 0 || !IsDigit(t[0]) ==> ds == ""
  {
    if |t| == 0 || !IsDigit(t[0]) then ""
    else if |t| >= 3 && t[1] == '_' && IsDigit(t[2]) then [t[0]] + LeadingDigits(t[2..])
    else [t[0]] + LeadingDigits(t[1..])
  }

  /** `s` with its leading white space removed. */
  function SkipSpace(s: string): (t: string)
    ensures |t| <= |s| && t == s[|s| - |t|..]
    ensures |t| > 0 ==> !IsAsciiSpace(t[0])
    ensures forall i :: 0 <= i < |s| - |t| ==> IsAsciiSpace(s[i])
  {
    if |s| > 0 && IsAsciiSpace(s[0]) then SkipSpace(s[1..]) else s
  }

  /** The unsigned part of a base-10 numeral: an optional `0d`/`0D` prefix, then digits. */
  function UnsignedValue(t: string): nat {
    if |t| >= 2 && t[0] == '0' && (t[1] == 'd' || t[1] == 'D') then DecimalValue(LeadingDigits(t[2..]))
    else DecimalValue(LeadingDigits(t))
  }

  /**
   * `String#to_i`: skip white space, read an optional sign and the numeral that
   * follows; anything that is not a numeral reads as 0, and text after the
   * numeral is ignored.
   */
  function ToI(s: string): int {
    var t := SkipSpace(s);
    if |t| > 0 && t[0] == '-' then -(UnsignedValue(t[1..]) as int)
    else if |t| > 0 && t[0] == '+' then UnsignedValue(t[1..])
    else UnsignedValue(t)
  }

  /** A string that does not start (after white space) with a sign or a digit reads as 0. */
  lemma ToINonNumeric(s: string)
    requires var t := SkipSpace(s); |t| == 0 || (!IsDigit(t[0]) && t[0] != '-' && t[0] != '+')
    ensures ToI(s) == 0
  {
  }

  /** The canonical decimal numeral of a natural number (`Integer#to_s`). */
  function Decimal(n: nat): (ds: string)
    ensures |ds| > 0 && AllDigits(ds)
  {
    if n < 10 then [('0' as int + n) as char]
    else Decimal(n / 10) + [('0' as int + n % 10) as char]
  }

  lemma {:induction false} DecimalValueOfDecimal(n: nat)
    ensures DecimalValue(Decimal(n)) == n
  {
    var ds := Decimal(n);
    if n >= 10 {
      DecimalValueOfDecimal(n / 10);
      assert ds[..|ds| - 1] == Decimal(n / 10);
    }
  }

  lemma {:induction false} LeadingDigitsOfDigits(ds: string)
    requires AllDigits(ds)
    ensures LeadingDigits(ds) == ds
  {
    if |ds| > 0 {
      LeadingDigitsOfDigits(ds[1..]);
    }
  }

  /** Reading back a rendered number gives the number: `n.to_s.to_i == n`. */
  lemma ToIDecimal(n: nat)
    ensures ToI(Decimal(n)) == n
    ensures ToI("-" + Decimal(n)) == -(n as int)
  {
    var ds := Decimal(n);
    UnsignedValueOfDecimal(n);
    assert SkipSpace(ds) == ds;
    var m := "-" + ds;
    assert SkipSpace(m) == m;
    assert m[1..] == ds;
  }

  lemma UnsignedValueOfDecimal(n: nat)
    ensures UnsignedValue(Decimal(n)) == n
  {
    var ds := Decimal(n);
    LeadingDigitsOfDigits(ds);
    DecimalValueOfDecimal(n);
    if n >= 10 {
      DecimalStartsNonZero(n);
    }
  }

  lemma {:induction false} DecimalStartsNonZero(n: nat)
    requires n >= 10
    ensures Decimal(n)[0] != '0'
  {
    if n / 10 >= 10 {
      DecimalStartsNonZero(n / 10);
    }
  }
}
