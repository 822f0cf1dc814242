/**
 * The Ruby String and Array operations the search plugin relies on, with
 * Ruby's own edge cases: interpolation of nil, String#include?, String#split
 * with a one-character separator, String#to_i, String#strip, String#gsub with a
 * one-character pattern, and Array#compact, Array#uniq and Array#join.
 */
module RubyText {
  import opened Wrappers

  /** String interpolation of a String or nil: nil interpolates as the empty string. */
  function Interpolate(x: Option<string>): string
  {
    match x
    case None => ""
    case Some(s) => s
  }

  predicate IsDigit(c: char) { '0' <= c <= '9' }

  /** The whitespace String#to_i skips before the number. */
  predicate IsSpace(c: char)
  {
    c == ' ' || c == '\t' || c == '\n' || c == '\U{B}' || c == '\U{C}' || c == '\r'
  }

  /** The whitespace String#strip removes: the above and NUL. */
  predicate IsStripSpace(c: char) { IsSpace(c) || c == '\0' }

  /** Whether t occurs in s, as String#include? decides. */
  predicate Contains(s: string, t: string)
    decreases |s|
  {
    t <= s || (|s| > 0 && Contains(s[1..], t))
  }

  /** Contains holds exactly when t starts at some position of s. */
  lemma {:induction false} ContainsAt(s: string, t: string)
    ensures Contains(s, t) <==> exists i :: 0 <= i <= |s| && t <= s[i..]
    decreases |s|
  {
    assert s[0..] == s;
    if |s| > 0 {
      ContainsAt(s[1..], t);
      if Contains(s, t) {
        if !(t <= s) {
          var i :| 0 <= i <= |s[1..]| && t <= s[1..][i..];
          assert s[1..][i..] == s[i + 1..];
        }
      } else {
        forall i | 1 <= i <= |s|
          ensures !(t <= s[i..])
        {
          assert s[i..] == s[1..][i - 1..];
        }
      }
    }
  }

  /** Index of the first c in s, or |s| when s holds no c. */
  function FirstIndexOf(s: string, c: char): (i: nat)
    ensures i <= |s|
    ensures i < |s| ==> s[i] == c
    ensures forall k :: 0 <= k < i ==> s[k] != c
  {
    if s == [] then 0
    else if s[0] == c then 0
    else 1 + FirstIndexOf(s[1..], c)
  }

  /** The three clauses of FirstIndexOf's contract pin its result down. */
  lemma FirstIndexOfIs(s: string, c: char, i: nat)
    requires i <= |s| && (i < |s| ==> s[i] == c)
    requires forall k :: 0 <= k < i ==> s[k] != c
    ensures FirstIndexOf(s, c) == i
  {
  }

  /** String#gsub with a one-character pattern c: every c in s replaced by r. */
  function ReplaceChar(s: string, c: char, r: string): (out: string)
    ensures forall x :: x in out ==> (x in s && x != c) || x in r
    ensures c !in s ==> out == s
  {
    if s == [] then []
    else (if s[0] == c then r else [s[0]]) + ReplaceChar(s[1..], c, r)
  }

  /** ReplaceChar works piece by piece: the result for p + q is the results for p and q put together. */
  lemma {:induction false} ReplaceCharAppend(p: string, q: string, c: char, r: string)
    ensures ReplaceChar(p + q, c, r) == ReplaceChar(p, c, r) + ReplaceChar(q, c, r)
    decreases |p|
  {
    if p == [] {
      assert p + q == q;
    } else {
      var head := if p[0] == c then r else [p[0]];
      assert (p + q)[0] == p[0] && (p + q)[1..] == p[1..] + q;
      ReplaceCharAppend(p[1..], q, c, r);
      AppendAssociates(head, ReplaceChar(p[1..], c, r), ReplaceChar(q, c, r));
    }
  }

  /** A single character becomes r exactly when it is c, and is kept otherwise. */
  lemma ReplaceCharOfOne(x: char, c: char, r: string)
    ensures ReplaceChar([x], c, r) == if x == c then r else [x]
  {
    assert [x][1..] == [];
  }

  /** Every c-separated field of s, the empty ones included. */
  function Fields(s: string, c: char): (fs: seq<string>)
    ensures |fs| > 0
    decreases |s|
  {
    var i := FirstIndexOf(s, c);
    if i == |s| then [s] else [s[..i]] + Fields(s[i + 1..], c)
  }

  /** fs without its trailing empty strings. */
  function DropTrailingEmpty(fs: seq<string>): (r: seq<string>)
    ensures r <= fs
    ensures r == [] || r[|r| - 1] != ""
    ensures forall i :: 0 <= i < |fs| && fs[i] != "" ==> i < |r|
  {
    if fs != [] && fs[|fs| - 1] == "" then DropTrailingEmpty(fs[..|fs| - 1]) else fs
  }

  /**
   * String#split with a one-character separator other than a space (a space
   * switches String#split to splitting on runs of whitespace): the fields
   * between separators, with the trailing empty ones dropped.
   */
  function Split(s: string, c: char): (fields: seq<string>)
    requires c != ' '
    ensures forall i :: 0 <= i < |fields| ==> c !in fields[i]
    ensures fields == [] || fields[|fields| - 1] != ""
  {
    FieldsAvoidSeparator(s, c);
    DropTrailingEmpty(Fields(s, c))
  }

  /** No field holds the separator. */
  lemma {:induction false} FieldsAvoidSeparator(s: string, c: char)
    ensures forall i :: 0 <= i < |Fields(s, c)| ==> c !in Fields(s, c)[i]
    decreases |s|
  {
    var i := FirstIndexOf(s, c);
    if i < |s| {
      FieldsAvoidSeparator(s[i + 1..], c);
    } else {
      assert s[..i] == s;
    }
  }

  /** A separator followed by a separator-free tail ends the list of fields with that tail. */
  lemma {:induction false} FieldsOfLastField(p: string, c: char, q: string)
    requires c !in q
    ensures Fields(p + [c] + q, c) == Fields(p, c) + [q]
    decreases |p|
  {
    var s := p + [c] + q;
    var i := FirstIndexOf(p, c);
    forall k | 0 <= k < i
      ensures s[k] != c
    {
      assert s[k] == p[k];
    }
    FieldsOfSeparatorFree(q, c);
    if i == |p| {
      FirstIndexOfIs(s, c, |p|);
      assert s[..|p|] == p && s[|p| + 1..] == q;
      assert Fields(p, c) == [p] by {
        assert p[..|p|] == p;
      }
      assert Fields(s, c) == [p] + Fields(q, c);
    } else {
      FirstIndexOfIs(s, c, i);
      assert s[..i] == p[..i];
      assert s[i + 1..] == p[i + 1..] + [c] + q;
      FieldsOfLastField(p[i + 1..], c, q);
      assert Fields(s, c) == [p[..i]] + (Fields(p[i + 1..], c) + [q]);
    }
  }

  /** A separator-free string is one field. */
  lemma FieldsOfSeparatorFree(q: string, c: char)
    requires c !in q
    ensures Fields(q, c) == [q]
  {
    assert q[..|q|] == q;
    FirstIndexOfIs(q, c, |q|);
  }

  /** The longest prefix of s made of decimal digits. */
  function LeadingDigits(s: string): (d: string)
    ensures d <= s
    ensures forall i :: 0 <= i < |d| ==> IsDigit(d[i])
    ensures |d| < |s| ==> !IsDigit(s[|d|])
  {
    if s != [] && IsDigit(s[0]) then [s[0]] + LeadingDigits(s[1..]) else []
  }

  function DigitValue(c: char): nat
    requires IsDigit(c)
  {
    (c as int) - ('0' as int)
  }

  /** The number the decimal digits d spell. */
  function DigitsValue(d: string): nat
    requires forall i :: 0 <= i < |d| ==> IsDigit(d[i])
  {
    if d == [] then 0 else 10 * DigitsValue(d[..|d| - 1]) + DigitValue(d[|d| - 1])
  }

  /** s without its leading String#to_i whitespace. */
  function SkipSpace(s: string): (t: string)
    ensures |t| <= |s| && t == s[|s| - |t|..]
    ensures t == [] || !IsSpace(t[0])
  {
    if s != [] && IsSpace(s[0]) then SkipSpace(s[1..]) else s
  }

  /**
   * String#to_i: leading whitespace, an optional sign, an optional "0d" or "0D"
   * prefix, then the longest run of decimal digits; 0 when there is no digit.
   */
  function ToI(s: string): int
  {
    var t := SkipSpace(s);
    if t != [] && t[0] == '-' then -(DigitsValue(LeadingDigits(SkipDecimalPrefix(t[1..]))) as int)
    else if t != [] && t[0] == '+' then DigitsValue(LeadingDigits(SkipDecimalPrefix(t[1..])))
    else DigitsValue(LeadingDigits(SkipDecimalPrefix(t)))
  }

  /** The decimal radix prefix "0d" or "0D", which to_i in base 10 skips. */
  function SkipDecimalPrefix(t: string): string
  {
    if |t| >= 2 && t[0] == '0' && (t[1] == 'd' || t[1] == 'D') then t[2..] else t
  }

  function DigitChar(d: nat): (c: char)
    requires d < 10
    ensures IsDigit(c) && DigitValue(c) == d
  {
    (('0' as int) + d) as char
  }

  /** The decimal numeral of n, without leading zeros. */
  function Decimal(n: nat): (d: string)
    ensures d != []
    ensures forall i :: 0 <= i < |d| ==> IsDigit(d[i])
  {
    if n < 10 then [DigitChar(n)] else Decimal(n / 10) + [DigitChar(n % 10)]
  }

  lemma {:induction false} DecimalValue(n: nat)
    ensures DigitsValue(Decimal(n)) == n
  {
    if n >= 10 {
      var d := Decimal(n);
      assert d[..|d| - 1] == Decimal(n / 10);
      DecimalValue(n / 10);
    }
  }

  lemma {:induction false} LeadingDigitsOfDigits(d: string)
    requires forall i :: 0 <= i < |d| ==> IsDigit(d[i])
    ensures LeadingDigits(d) == d
  {
    if d != [] {
      LeadingDigitsOfDigits(d[1..]);
    }
  }

  /** String#to_i reads back the numeral of every natural number. */
  lemma {:induction false} ToIDecimal(n: nat)
    ensures ToI(Decimal(n)) == n
  {
    ToIOfDigits(Decimal(n));
    DecimalValue(n);
  }

  lemma {:induction false} ToIOfDigits(d: string)
    requires d != [] && forall i :: 0 <= i < |d| ==> IsDigit(d[i])
    ensures ToI(d) == DigitsValue(d)
  {
    assert IsDigit(d[0]);
    assert !IsSpace(d[0]) && d[0] != '-' && d[0] != '+';
    assert SkipSpace(d) == d;
    assert |d| >= 2 ==> IsDigit(d[1]);
    assert SkipDecimalPrefix(d) == d;
    LeadingDigitsOfDigits(d);
  }

  /** A "0d" or "0D" prefix before the digits does not change what String#to_i reads. */
  lemma {:induction false} ToIOfDecimalPrefix(d: string)
    requires d != [] && forall i :: 0 <= i < |d| ==> IsDigit(d[i])
    ensures ToI("0d" + d) == DigitsValue(d)
    ensures ToI("0D" + d) == DigitsValue(d)
    ensures ToI("-0d" + d) == -(DigitsValue(d) as int)
  {
    LeadingDigitsOfDigits(d);
    ToIAfterPrefix("0d", d);
    ToIAfterPrefix("0D", d);
    var m := "-0d" + d;
    assert m[0] == '-' && m[1..] == "0d" + d;
    ToINegated(m);
  }

  lemma {:induction false} ToINegated(m: string)
    requires m != [] && m[0] == '-'
    ensures ToI(m) == -(DigitsValue(LeadingDigits(SkipDecimalPrefix(m[1..]))) as int)
  {
    assert !IsSpace(m[0]);
    assert SkipSpace(m) == m;
  }

  lemma {:induction false} ToIAfterPrefix(p: string, d: string)
    requires |p| == 2 && p[0] == '0' && (p[1] == 'd' || p[1] == 'D')
    requires LeadingDigits(d) == d
    ensures SkipDecimalPrefix(p + d) == d
    ensures ToI(p + d) == DigitsValue(d)
  {
    var t := p + d;
    assert t[0] == '0' && !IsSpace(t[0]);
    assert SkipSpace(t) == t;
    assert t[2..] == d;
  }

  /** s without its leading String#strip whitespace. */
  function StripLeft(s: string): (r: string)
    ensures forall x :: x in r ==> x in s
    ensures r == [] || !IsStripSpace(r[0])
    ensures s != [] && !IsStripSpace(s[0]) ==> r == s
  {
    if s != [] && IsStripSpace(s[0]) then StripLeft(s[1..]) else s
  }

  /** StripLeft removes a run of whitespace at the start of s, and nothing else. */
  lemma {:induction false} StripLeftIsSuffix(s: string)
    ensures var r := StripLeft(s);
      && |r| <= |s| && r == s[|s| - |r|..]
      && forall k :: 0 <= k < |s| - |r| ==> IsStripSpace(s[k])
    decreases |s|
  {
    if s != [] && IsStripSpace(s[0]) {
      var t := s[1..];
      StripLeftIsSuffix(t);
      var r := StripLeft(t);
      assert t[|t| - |r|..] == s[|s| - |r|..];
      assert forall k :: 1 <= k < |s| - |r| ==> s[k] == t[k - 1];
    }
  }

  /** s without its trailing String#strip whitespace. */
  function StripRight(s: string): (r: string)
    ensures r <= s
    ensures forall x :: x in r ==> x in s
    ensures r == [] || !IsStripSpace(r[|r| - 1])
  {
    if s != [] && IsStripSpace(s[|s| - 1]) then StripRight(s[..|s| - 1]) else s
  }

  /** StripRight removes a run of whitespace at the end of s, and nothing else. */
  lemma {:induction false} StripRightIsPrefix(s: string)
    ensures forall k :: |StripRight(s)| <= k < |s| ==> IsStripSpace(s[k])
    decreases |s|
  {
    if s != [] && IsStripSpace(s[|s| - 1]) {
      var t := s[..|s| - 1];
      StripRightIsPrefix(t);
      assert forall k :: |StripRight(t)| <= k < |t| ==> s[k] == t[k];
    }
  }

  /**
   * String#strip: s without its leading and trailing whitespace. It neither
   * starts nor ends with whitespace, and it is s itself when s already did not.
   */
  function Strip(s: string): (r: string)
    ensures forall x :: x in r ==> x in s
    ensures r == [] || (!IsStripSpace(r[0]) && !IsStripSpace(r[|r| - 1]))
    ensures s == [] || (!IsStripSpace(s[0]) && !IsStripSpace(s[|s| - 1])) ==> r == s
  {
    var l := StripLeft(s);
    var r := StripRight(l);
    assert r != [] ==> r[0] == l[0];
    r
  }

  /** strip removes whitespace at the two ends of s and nothing else: what is left is a slice of s. */
  lemma StripKeepsTheMiddle(s: string)
    ensures exists i, j ::
      && 0 <= i <= j <= |s| && Strip(s) == s[i..j]
      && (forall k :: 0 <= k < i ==> IsStripSpace(s[k]))
      && (forall k :: j <= k < |s| ==> IsStripSpace(s[k]))
  {
    var l := StripLeft(s);
    var r := StripRight(l);
    var i := |s| - |l|;
    var j := i + |r|;
    StripLeftIsSuffix(s);
    StripRightIsPrefix(l);
    assert l == s[i..];
    assert r == l[..|r|];
    assert Strip(s) == s[i..j] by {
      assert s[i..][..|r|] == s[i..j];
    }
    assert forall k :: 0 <= k < i ==> IsStripSpace(s[k]);
    assert forall k :: j <= k < |s| ==> IsStripSpace(s[k]) by {
      forall k | j <= k < |s|
        ensures IsStripSpace(s[k])
      {
        assert s[k] == l[k - i];
      }
    }
  }

  /** Array#compact: the non-nil entries of xs, in order. */
  function Compact<T>(xs: seq<Option<T>>): seq<T>
  {
    if xs == [] then []
    else
      var last := xs[|xs| - 1];
      assert xs == xs[..|xs| - 1] + [last];
      Compact(xs[..|xs| - 1]) + (if last.Some? then [last.value] else [])
  }

  /** compact keeps exactly the values of the non-nil entries. */
  lemma {:induction false} CompactMembers<T(!new)>(xs: seq<Option<T>>)
    ensures forall y :: y in Compact(xs) <==> Some(y) in xs
  {
    if xs != [] {
      var init, last := xs[..|xs| - 1], xs[|xs| - 1];
      CompactMembers(init);
      assert xs == init + [last];
    }
  }

  lemma TakeOneMore<T>(s: seq<T>, i: int)
    requires 0 <= i < |s|
    ensures s[..i + 1] == s[..i] + [s[i]]
  {
  }

  lemma AppendAssociates<T>(s: seq<T>, t: seq<T>, u: seq<T>)
    ensures s + (t + u) == (s + t) + u
  {
  }

  /** Compacting one more entry appends its value when it is non-nil. */
  lemma CompactSnoc<T>(xs: seq<Option<T>>, i: int)
    requires 0 <= i < |xs|
    ensures Compact(xs[..i + 1]) == Compact(xs[..i]) + (if xs[i].Some? then [xs[i].value] else [])
  {
    assert xs[..i + 1][..i] == xs[..i];
  }

  /** Number of non-nil entries of xs. */
  function CountSome<T>(xs: seq<Option<T>>): nat
  {
    if xs == [] then 0 else (if xs[0].Some? then 1 else 0) + CountSome(xs[1..])
  }

  lemma {:induction false} CountSomeSnoc<T>(xs: seq<Option<T>>, x: Option<T>)
    ensures CountSome(xs + [x]) == CountSome(xs) + (if x.Some? then 1 else 0)
  {
    if xs != [] {
      assert (xs + [x])[1..] == xs[1..] + [x];
      CountSomeSnoc(xs[1..], x);
    }
  }

  /** compact keeps exactly one element for each non-nil entry. */
  lemma {:induction false} CompactLength<T>(xs: seq<Option<T>>)
    ensures |Compact(xs)| == CountSome(xs)
  {
    if xs != [] {
      var init := xs[..|xs| - 1];
      assert xs == init + [xs[|xs| - 1]];
      CompactLength(init);
      CountSomeSnoc(init, xs[|xs| - 1]);
    }
  }

  /** Array#uniq: the first occurrence of each distinct element of xs, in order. */
  function Uniq<T(==,!new)>(xs: seq<T>): (u: seq<T>)
    ensures forall x :: x in u <==> x in xs
    ensures forall i, j :: 0 <= i < j < |u| ==> u[i] != u[j]
  {
    if xs == [] then []
    else
      var init := xs[..|xs| - 1];
      assert xs == init + [xs[|xs| - 1]];
      var u := Uniq(init);
      if xs[|xs| - 1] in u then u else u + [xs[|xs| - 1]]
  }

  /** Index of the first x in xs. */
  function IndexOf<T(==)>(xs: seq<T>, x: T): (i: nat)
    requires x in xs
    ensures i < |xs| && xs[i] == x && x !in xs[..i]
  {
    if xs[0] == x then 0
    else
      var i := 1 + IndexOf(xs[1..], x);
      assert xs[..i] == [xs[0]] + xs[1..][..i - 1];
      i
  }

  lemma {:induction false} IndexOfSnoc<T>(xs: seq<T>, y: T, x: T)
    requires x in xs
    ensures IndexOf(xs + [y], x) == IndexOf(xs, x)
  {
    if xs[0] != x {
      assert (xs + [y])[1..] == xs[1..] + [y];
      IndexOfSnoc(xs[1..], y, x);
    }
  }

  /** uniq lists the distinct elements in the order of their first occurrences. */
  lemma {:induction false} UniqKeepsFirstOccurrenceOrder<T(!new)>(xs: seq<T>, i: int, j: int)
    requires 0 <= i < j < |Uniq(xs)|
    ensures IndexOf(xs, Uniq(xs)[i]) < IndexOf(xs, Uniq(xs)[j])
  {
    var init := xs[..|xs| - 1];
    var y := xs[|xs| - 1];
    assert xs == init + [y];
    var u := Uniq(init);
    if j < |u| {
      UniqKeepsFirstOccurrenceOrder(init, i, j);
      IndexOfSnoc(init, y, u[i]);
      IndexOfSnoc(init, y, u[j]);
    } else {
      assert y !in init;
      IndexOfSnoc(init, y, u[i]);
      assert IndexOf(xs, y) == |init| by {
        assert xs[..|init|] == init;
        assert y in xs;
      }
    }
  }

  /** Array#join: the parts with sep between consecutive ones. */
  function Join(parts: seq<string>, sep: string): (r: string)
    ensures forall x :: x in r ==> x in sep || exists i :: 0 <= i < |parts| && x in parts[i]
  {
    if parts == [] then ""
    else if |parts| == 1 then parts[0]
    else
      var init := parts[..|parts| - 1];
      assert forall i :: 0 <= i < |init| ==> init[i] == parts[i];
      Join(init, sep) + sep + parts[|parts| - 1]
  }
}
