/** The few Python `str` operations the scripts rely on, on Dafny strings:
    str.isspace, str.strip, str.split() with no separator, str.lower on the
    letters the scripts compare, str(n) for integers and str.zfill. */
module Text {
  import opened Wire

  /** str.isspace() for one character: the code points Python classes as
      whitespace (the ASCII controls 9-13 and 28-31, space, NEL, NBSP and
      the Unicode space separators). */
  predicate IsSpace(c: char)
  {
    var n := c as int;
    (9 <= n <= 13) || (0x1C <= n <= 0x20) || n == 0x85 || n == 0xA0 || n == 0x1680
    || (0x2000 <= n <= 0x200A) || n == 0x2028 || n == 0x2029 || n == 0x202F
    || n == 0x205F || n == 0x3000
  }

  predicate AllSpace(s: string)
  {
    forall k :: 0 <= k < |s| ==> IsSpace(s[k])
  }

  predicate NoSpace(s: string)
  {
    forall k :: 0 <= k < |s| ==> !IsSpace(s[k])
  }

  /** The length of the run of whitespace that starts `s`. */
  function LeadingSpaces(s: string): (n: nat)
    ensures n <= |s| && AllSpace(s[..n])
    ensures n < |s| ==> !IsSpace(s[n])
  {
    if s != [] && IsSpace(s[0]) then 1 + LeadingSpaces(s[1..]) else 0
  }

  /** The length of the run of whitespace that ends `s`. */
  function TrailingSpaces(s: string): (n: nat)
    ensures n <= |s| && AllSpace(s[|s| - n..])
    ensures n < |s| ==> !IsSpace(s[|s| - n - 1])
  {
    if s != [] && IsSpace(s[|s| - 1]) then 1 + TrailingSpaces(s[..|s| - 1]) else 0
  }

  /** The length of the run of non-whitespace that starts `s`. */
  function WordLength(s: string): (n: nat)
    ensures n <= |s| && NoSpace(s[..n])
    ensures n < |s| ==> IsSpace(s[n])
  {
    if s != [] && !IsSpace(s[0]) then 1 + WordLength(s[1..]) else 0
  }

  /** str.strip(): what lies between the leading and the trailing whitespace.
      The result sits in `s` right after the leading whitespace, only
      whitespace follows it, and it neither starts nor ends with whitespace. */
  function Strip(s: string): (r: string)
    ensures var i := LeadingSpaces(s);
      i + |r| <= |s| && r == s[i..i + |r|] && AllSpace(s[i + |r|..])
    ensures r == [] || (!IsSpace(r[0]) && !IsSpace(r[|r| - 1]))
  {
    var t := s[LeadingSpaces(s)..];
    t[..|t| - TrailingSpaces(t)]
  }

  /** Stripping text that already neither starts nor ends with whitespace
      changes nothing. */
  lemma StripStripped(s: string)
    requires s == [] || (!IsSpace(s[0]) && !IsSpace(s[|s| - 1]))
    ensures Strip(s) == s
  {
    assert LeadingSpaces(s) == 0;
    if s != [] {
      assert s[..|s|] == s;
      assert TrailingSpaces(s) == 0;
    }
  }

  /** Text that ends in a non-whitespace character keeps that character
      when stripped. */
  lemma StripKeepsLast(s: string)
    requires s != [] && !IsSpace(s[|s| - 1])
    ensures Strip(s) != [] && Strip(s)[|Strip(s)| - 1] == s[|s| - 1]
  {
    var i := LeadingSpaces(s);
    assert !AllSpace(s);
    assert s[..|s|] == s;
    assert i < |s|;
    var t := s[i..];
    assert t[|t| - 1] == s[|s| - 1];
    assert TrailingSpaces(t) == 0;
    assert t[..|t|] == t;
  }

  /** Whitespace around text that neither starts nor ends with whitespace
      is exactly what str.strip() removes. */
  lemma StripPadded(a: string, w: string, b: string)
    requires AllSpace(a) && AllSpace(b)
    requires w == [] || (!IsSpace(w[0]) && !IsSpace(w[|w| - 1]))
    ensures Strip(a + w + b) == w
  {
    var s := a + w + b;
    assert s == a + (w + b);
    LeadingSpacesAfter(a, w + b);
    if w == [] {
      assert w + b == b + [];
      LeadingSpacesAfter(b, []);
      assert s[LeadingSpaces(s)..] == [];
    } else {
      assert LeadingSpaces(w + b) == 0;
      var t := s[LeadingSpaces(s)..];
      assert t == w + b;
      TrailingSpacesBefore(w, b);
      assert t[..|t| - |b|] == w;
    }
  }

  lemma {:induction false} TrailingSpacesBefore(w: string, b: string)
    requires AllSpace(b)
    requires w == [] || !IsSpace(w[|w| - 1])
    ensures TrailingSpaces(w + b) == |b|
    decreases |b|
  {
    var s := w + b;
    if b == [] {
      assert s == w;
    } else {
      assert s[|s| - 1] == b[|b| - 1];
      assert s[..|s| - 1] == w + b[..|b| - 1];
      TrailingSpacesBefore(w, b[..|b| - 1]);
    }
  }

  /** str.split() with no separator: the maximal runs of non-whitespace. */
  function Words(s: string): (ws: seq<string>)
    ensures forall k :: 0 <= k < |ws| ==> ws[k] != [] && NoSpace(ws[k])
    decreases |s|
  {
    var t := s[LeadingSpaces(s)..];
    if t == [] then []
    else
      var n := WordLength(t);
      [t[..n]] + Words(t[n..])
  }

  /** Leading whitespace does not change the words. */
  lemma WordsSkipSpace(sp: string, rest: string)
    requires AllSpace(sp)
    ensures Words(sp + rest) == Words(rest)
  {
    var i := LeadingSpaces(sp + rest);
    var j := LeadingSpaces(rest);
    LeadingSpacesAfter(sp, rest);
    assert i == |sp| + j;
    assert (sp + rest)[i..] == rest[j..];
  }

  lemma {:induction false} LeadingSpacesAfter(sp: string, rest: string)
    requires AllSpace(sp)
    ensures LeadingSpaces(sp + rest) == |sp| + LeadingSpaces(rest)
  {
    if sp != [] {
      assert (sp + rest)[1..] == sp[1..] + rest;
      LeadingSpacesAfter(sp[1..], rest);
    } else {
      assert sp + rest == rest;
    }
  }

  lemma {:induction false} WordLengthOf(w: string, rest: string)
    requires NoSpace(w)
    requires rest == [] || IsSpace(rest[0])
    ensures WordLength(w + rest) == |w|
  {
    if w != [] {
      assert (w + rest)[1..] == w[1..] + rest;
      WordLengthOf(w[1..], rest);
    } else {
      assert w + rest == rest;
    }
  }

  /** A word followed by whitespace or by nothing is the first word. */
  lemma WordsCons(w: string, rest: string)
    requires w != [] && NoSpace(w)
    requires rest == [] || IsSpace(rest[0])
    ensures Words(w + rest) == [w] + Words(rest)
  {
    var s := w + rest;
    assert LeadingSpaces(s) == 0;
    assert s[0..] == s;
    WordLengthOf(w, rest);
    assert s[..|w|] == w;
    assert s[|w|..] == rest;
  }

  /** The second word of `head name rest` is `name`. */
  lemma SecondWord(head: string, name: string, rest: string)
    requires head != [] && NoSpace(head) && name != [] && NoSpace(name)
    requires rest == [] || IsSpace(rest[0])
    ensures |Words(head + " " + name + rest)| > 1 && Words(head + " " + name + rest)[1] == name
  {
    var t := " " + (name + rest);
    assert head + " " + name + rest == head + t by {
      AppendAssoc(head, " ", name);
      AppendAssoc(head, " " + name, rest);
      AppendAssoc(" ", name, rest);
    }
    assert IsSpace(t[0]);
    WordsCons(head, t);
    WordAfterSpace(name, rest);
    var tail := [name] + Words(rest);
    assert ([head] + tail)[1] == name;
  }

  /** A word after one space is the first word. */
  lemma WordAfterSpace(name: string, rest: string)
    requires name != [] && NoSpace(name)
    requires rest == [] || IsSpace(rest[0])
    ensures Words(" " + (name + rest)) == [name] + Words(rest)
  {
    assert AllSpace(" ");
    WordsSkipSpace(" ", name + rest);
    WordsCons(name, rest);
  }

  /** Whitespace after a word adds no word. */
  lemma WordThenSpace(w: string, sp: string)
    requires w != [] && NoSpace(w) && AllSpace(sp)
    ensures Words(w + sp) == [w]
  {
    if sp != [] {
      assert IsSpace(sp[0]);
    }
    WordsCons(w, sp);
    WordsSkipSpace(sp, []);
    assert sp + [] == sp;
  }

  /** str.lower() on ASCII letters. The scripts compare its result with
      lower-case ASCII words, for which no other character matters. */
  function Lower(s: string): (r: string)
    ensures |r| == |s|
    ensures forall k :: 0 <= k < |s| ==>
      r[k] == if 'A' <= s[k] <= 'Z' then (s[k] as int + 32) as char else s[k]
  {
    if s == [] then []
    else [if 'A' <= s[0] <= 'Z' then (s[0] as int + 32) as char else s[0]] + Lower(s[1..])
  }

  predicate IsDigit(c: char)
  {
    '0' <= c <= '9'
  }

  predicate AllDigits(s: string)
  {
    forall k :: 0 <= k < |s| ==> IsDigit(s[k])
  }

  function DigitChar(d: nat): (c: char)
    requires d < 10
    ensures IsDigit(c) && c as int - '0' as int == d
  {
    ('0' as int + d) as char
  }

  function Pow10(k: nat): (p: nat)
    ensures p >= 1
  {
    if k == 0 then 1 else 10 * Pow10(k - 1)
  }

  /** The number a string of decimal digits denotes (int(s) on digits). */
  function DigitsValue(s: string): nat
    requires AllDigits(s)
  {
    if s == [] then 0
    else
      var d: nat := s[0] as int - '0' as int;
      ProductNat(d, Pow10(|s| - 1));
      d * Pow10(|s| - 1) + DigitsValue(s[1..])
  }

  lemma ProductNat(a: nat, b: nat)
    ensures a * b >= 0
  {
  }

  /** str(n) for a non-negative integer: decimal digits, most significant
      first, with no leading zero. */
  function Decimal(n: nat): (r: string)
    ensures r != [] && AllDigits(r)
    ensures |r| > 1 ==> r[0] != '0'
    ensures DigitsValue(r) == n
    decreases n
  {
    if n < 10 then [DigitChar(n)]
    else
      var r := Decimal(n / 10) + [DigitChar(n % 10)];
      DigitsValueSnoc(Decimal(n / 10), DigitChar(n % 10));
      r
  }

  /** Appending a digit multiplies by ten and adds it. */
  lemma {:induction false} DigitsValueSnoc(s: string, c: char)
    requires AllDigits(s) && IsDigit(c)
    ensures AllDigits(s + [c])
    ensures DigitsValue(s + [c]) == 10 * DigitsValue(s) + (c as int - '0' as int)
  {
    if s != [] {
      var t := s + [c];
      assert t[0] == s[0] && t[1..] == s[1..] + [c];
      DigitsValueSnoc(s[1..], c);
      var d, p := s[0] as int - '0' as int, Pow10(|s| - 1);
      assert Pow10(|t| - 1) == 10 * p;
      ShiftDigit(d, p);
    }
  }

  lemma ShiftDigit(d: int, p: int)
    ensures d * (10 * p) == 10 * (d * p)
  {
  }

  /** Leading zeros do not change the value of a digit string. */
  lemma {:induction false} DigitsValueZeros(k: nat, s: string)
    requires AllDigits(s)
    ensures AllDigits(Zeros(k) + s)
    ensures DigitsValue(Zeros(k) + s) == DigitsValue(s)
  {
    if k > 0 {
      var t := Zeros(k) + s;
      assert t[0] == '0' && t[1..] == Zeros(k - 1) + s;
      DigitsValueZeros(k - 1, s);
      assert DigitsValue(t) == 0 * Pow10(|t| - 1) + DigitsValue(t[1..]);
    } else {
      assert Zeros(k) + s == s;
    }
  }

  function Zeros(k: nat): (z: string)
    ensures |z| == k && forall i :: 0 <= i < k ==> z[i] == '0'
  {
    if k == 0 then [] else ['0'] + Zeros(k - 1)
  }

  /** str.zfill(width): pad on the left with '0' up to `width` characters,
      keeping a leading '+' or '-' in front of the zeros. The original text
      (after its sign, if any) ends the result and only zeros come between. */
  function ZFill(s: string, width: int): (r: string)
    ensures |r| == if width > |s| then width else |s|
    ensures width <= |s| ==> r == s
    ensures s == [] || (s[0] != '+' && s[0] != '-') ==>
      r[|r| - |s|..] == s && forall i :: 0 <= i < |r| - |s| ==> r[i] == '0'
    ensures s != [] && (s[0] == '+' || s[0] == '-') ==>
      r[0] == s[0] && r[|r| - |s| + 1..] == s[1..] && forall i :: 1 <= i <= |r| - |s| ==> r[i] == '0'
  {
    if width <= |s| then s
    else if s != [] && (s[0] == '+' || s[0] == '-') then [s[0]] + Zeros(width - |s|) + s[1..]
    else Zeros(width - |s|) + s
  }

  /** Zero-filling a digit string keeps its value: the padding is only
      leading zeros. */
  lemma ZFillValue(s: string, width: int)
    requires AllDigits(s)
    ensures AllDigits(ZFill(s, width))
    ensures DigitsValue(ZFill(s, width)) == DigitsValue(s)
  {
    if width > |s| {
      assert s == [] || (s[0] != '+' && s[0] != '-');
      assert ZFill(s, width) == Zeros(width - |s|) + s;
      DigitsValueZeros(width - |s|, s);
    }
  }
}
