/** The parts of Python's `str` semantics that the scripts rely on. */
module Text {
  import opened Wrappers

  // ---------------------------------------------------------------- whitespace

  /** Python's `c.isspace()`. */
  predicate IsSpace(c: char) {
    c == ' ' || ('\t' <= c <= '\r') || ('\U{1C}' <= c <= '\U{1F}') || c == '\U{85}' || c == '\U{A0}'
    || c == '\U{1680}' || ('\U{2000}' <= c <= '\U{200A}') || c == '\U{2028}' || c == '\U{2029}'
    || c == '\U{202F}' || c == '\U{205F}' || c == '\U{3000}'
  }

  predicate NoSpace(s: string) {
    forall i :: 0 <= i < |s| ==> !IsSpace(s[i])
  }

  /** `s.lstrip()`: the longest suffix that does not start with whitespace. */
  function TrimStart(s: string): (r: string)
    ensures |r| <= |s| && r == s[|s| - |r|..]
    ensures r == [] || !IsSpace(r[0])
    ensures forall i :: 0 <= i < |s| - |r| ==> IsSpace(s[i])
  {
    if s == [] || !IsSpace(s[0]) then s else TrimStart(s[1..])
  }

  /** `s.rstrip()`: the longest prefix that does not end with whitespace. */
  function TrimEnd(s: string): (r: string)
    ensures |r| <= |s| && r == s[..|r|]
    ensures r == [] || !IsSpace(r[|r| - 1])
    ensures r == [] || r[0] == s[0]
    ensures forall i :: |r| <= i < |s| ==> IsSpace(s[i])
  {
    if s == [] || !IsSpace(s[|s| - 1]) then s else TrimEnd(s[..|s| - 1])
  }

  /** `s.strip()`. */
  function Strip(s: string): string {
    TrimEnd(TrimStart(s))
  }

  /** A string that starts and ends with a non-whitespace character is its own strip. */
  lemma StripKeeps(s: string)
    requires s == [] || (!IsSpace(s[0]) && !IsSpace(s[|s| - 1]))
    ensures Strip(s) == s
  {
    var t := TrimStart(s);
    assert t == s;
  }

  /** A stripped string starts and ends with a non-whitespace character. */
  lemma StripEnds(s: string)
    ensures Strip(s) == [] || (!IsSpace(Strip(s)[0]) && !IsSpace(Strip(s)[|Strip(s)| - 1]))
  {
    var t := TrimStart(s);
    assert Strip(s) == TrimEnd(t);
  }

  // ---------------------------------------------------------------- split / join

  /** The longest prefix of `s` without whitespace. */
  function TakeWord(s: string): (w: string)
    ensures |w| <= |s| && w == s[..|w|]
    ensures NoSpace(w)
    ensures |w| == |s| || IsSpace(s[|w|])
    ensures s != [] && !IsSpace(s[0]) ==> |w| > 0
  {
    if s == [] || IsSpace(s[0]) then [] else [s[0]] + TakeWord(s[1..])
  }

  /** `s.split()` with no separator: the maximal runs of non-whitespace characters. */
  function Split(s: string): (ws: seq<string>)
    ensures AreWords(ws)
    decreases |s|
  {
    var t := TrimStart(s);
    if t == [] then []
    else
      var w := TakeWord(t);
      var rest := Split(t[|w|..]);
      WordsCons(w, rest);
      [w] + rest
  }

  lemma WordsCons(w: string, rest: seq<string>)
    requires w != [] && NoSpace(w) && AreWords(rest)
    ensures AreWords([w] + rest)
  {
  }

  /** `' '.join(ws)`. */
  function JoinSpaces(ws: seq<string>): string {
    if ws == [] then "" else if |ws| == 1 then ws[0] else ws[0] + " " + JoinSpaces(ws[1..])
  }

  /** Words as `split()` produces them: non-empty and free of whitespace. */
  predicate AreWords(ws: seq<string>) {
    forall k :: 0 <= k < |ws| ==> ws[k] != [] && NoSpace(ws[k])
  }

  /** No leading or trailing whitespace, and every whitespace character is a
      single ' ' between two non-whitespace characters. */
  predicate SingleSpaced(s: string) {
    (s == [] || (!IsSpace(s[0]) && !IsSpace(s[|s| - 1])))
    && forall i :: 0 <= i < |s| && IsSpace(s[i]) ==> s[i] == ' ' && i + 1 < |s| && !IsSpace(s[i + 1])
  }

  lemma TakeWordOfWord(w: string, tail: string)
    requires NoSpace(w)
    requires tail == [] || IsSpace(tail[0])
    ensures TakeWord(w + tail) == w
  {
    if w != [] {
      assert (w + tail)[1..] == w[1..] + tail;
      TakeWordOfWord(w[1..], tail);
    } else {
      assert w + tail == tail;
    }
  }

  lemma SplitSkipsSpace(c: char, s: string)
    requires IsSpace(c)
    ensures Split([c] + s) == Split(s)
  {
    assert ([c] + s)[1..] == s;
  }

  lemma JoinSpacesStart(ws: seq<string>)
    requires AreWords(ws) && ws != []
    ensures JoinSpaces(ws) != [] && JoinSpaces(ws)[0] == ws[0][0]
  {
  }

  lemma JoinSpacesEnd(ws: seq<string>)
    requires AreWords(ws) && ws != []
    ensures |JoinSpaces(ws)| > 0
    ensures JoinSpaces(ws)[|JoinSpaces(ws)| - 1] == ws[|ws| - 1][|ws[|ws| - 1]| - 1]
  {
    if |ws| > 1 {
      JoinSpacesEnd(ws[1..]);
    }
  }

  /** Splitting a space-joined list of words gives the words back. */
  lemma {:induction false} SplitJoin(ws: seq<string>)
    requires AreWords(ws)
    ensures Split(JoinSpaces(ws)) == ws
  {
    if |ws| == 1 {
      SplitOneWord(ws);
    } else if |ws| > 1 {
      assert AreWords(ws[1..]);
      SplitJoin(ws[1..]);
      SplitJoinStep(ws);
    }
  }

  lemma {:induction false} SplitOneWord(ws: seq<string>)
    requires AreWords(ws) && |ws| == 1
    ensures Split(JoinSpaces(ws)) == ws
  {
    var w := ws[0];
    assert TrimStart(w) == w;
    TakeWordOfWord(w, "");
    assert w + "" == w;
    assert w[|w|..] == [];
  }

  lemma {:induction false} SplitJoinStep(ws: seq<string>)
    requires AreWords(ws) && |ws| > 1 && Split(JoinSpaces(ws[1..])) == ws[1..]
    ensures Split(JoinSpaces(ws)) == ws
  {
    assert JoinSpaces(ws) == ws[0] + " " + JoinSpaces(ws[1..]);
    SplitWordSpace(ws[0], JoinSpaces(ws[1..]));
    HeadTail(ws);
  }

  /** A word and a space come apart as that word and the split of the rest. */
  lemma {:induction false} SplitWordSpace(w: string, j: string)
    requires w != [] && NoSpace(w)
    ensures Split(w + " " + j) == [w] + Split(j)
  {
    var s := w + " " + j;
    assert TrimStart(s) == s by {
      assert s[0] == w[0];
    }
    assert TakeWord(s) == w by {
      assert s == w + (" " + j);
      TakeWordOfWord(w, " " + j);
    }
    assert Split(s[|w|..]) == Split(j) by {
      assert s[|w|..] == [' '] + j;
      SplitSkipsSpace(' ', j);
    }
  }

  lemma HeadTail<T>(xs: seq<T>)
    requires xs != []
    ensures xs == [xs[0]] + xs[1..]
  {
  }

  /** A space-joined list of words is single-spaced. */
  lemma {:induction false} JoinSingleSpaced(ws: seq<string>)
    requires AreWords(ws)
    ensures SingleSpaced(JoinSpaces(ws))
  {
    if |ws| > 1 {
      var w, rest := ws[0], ws[1..];
      var j := JoinSpaces(rest);
      assert AreWords(rest);
      JoinSingleSpaced(rest);
      JoinSpacesStart(rest);
      JoinSpacesEnd(rest);
      var s := w + " " + j;
      assert JoinSpaces(ws) == s;
      assert forall i :: 0 <= i < |w| ==> s[i] == w[i];
      forall i | |w| <= i < |s| && IsSpace(s[i])
        ensures s[i] == ' ' && i + 1 < |s| && !IsSpace(s[i + 1])
      {
        if i == |w| {
          assert s[i + 1] == j[0];
        } else {
          assert s[i] == j[i - |w| - 1];
          assert i + 1 < |s| ==> s[i + 1] == j[i - |w|];
        }
      }
      assert s[|s| - 1] == j[|j| - 1];
    }
  }

  /** No word of `ws` contains `c`. */
  predicate WordsAvoid(ws: seq<string>, c: char) {
    forall k :: 0 <= k < |ws| ==> c !in ws[k]
  }

  lemma SliceAvoids(s: string, i: nat, j: nat, c: char)
    requires i <= j <= |s| && c !in s
    ensures c !in s[i..j]
  {
  }

  lemma AvoidCons(w: string, rest: seq<string>, c: char)
    requires c !in w && WordsAvoid(rest, c)
    ensures WordsAvoid([w] + rest, c)
  {
  }

  /** Splitting never creates a character: the words of `s` avoid every
      character that `s` avoids. */
  lemma {:induction false} SplitAvoids(s: string, c: char)
    requires c !in s
    ensures WordsAvoid(Split(s), c)
    decreases |s|
  {
    var t := TrimStart(s);
    if t != [] {
      var w := TakeWord(t);
      SliceAvoids(s, |s| - |t|, |s|, c);
      SliceAvoids(t, 0, |w|, c);
      SliceAvoids(t, |w|, |t|, c);
      var rest := t[|w|..];
      SplitAvoids(rest, c);
      AvoidCons(w, Split(rest), c);
    }
  }

  /** Joining with ' ' adds no character other than ' '. */
  lemma {:induction false} JoinAvoids(ws: seq<string>, c: char)
    requires c != ' '
    requires WordsAvoid(ws, c)
    ensures c !in JoinSpaces(ws)
  {
    if |ws| > 1 {
      JoinAvoids(ws[1..], c);
    }
  }

  // ---------------------------------------------------------------- prefixes and characters

  /** `s.split(ch)[0]`: the text before the first `ch`. */
  function Before(s: string, ch: char): (r: string)
    ensures |r| <= |s| && r == s[..|r|]
    ensures ch !in r
    ensures |r| == |s| || s[|r|] == ch
  {
    if s == [] || s[0] == ch then [] else [s[0]] + Before(s[1..], ch)
  }

  /** `s.replace(ch, '')`: `s` with every `ch` deleted, the rest in order. */
  function Remove(s: string, ch: char): (r: string)
    ensures ch !in r
    ensures ch !in s ==> r == s
    ensures |r| == |s| - multiset(s)[ch]
    ensures forall x :: x != ch ==> multiset(r)[x] == multiset(s)[x]
  {
    if s == [] then []
    else
      assert s == [s[0]] + s[1..];
      (if s[0] == ch then [] else [s[0]]) + Remove(s[1..], ch)
  }

  /** Python's `s.startswith(p)`. */
  predicate IsPrefix(p: string, s: string) {
    |p| <= |s| && s[..|p|] == p
  }

  function UpperAscii(c: char): char {
    if 'a' <= c <= 'z' then (c as int - 32) as char else c
  }

  function LowerAscii(c: char): char {
    if 'A' <= c <= 'Z' then (c as int + 32) as char else c
  }

  function LowerAll(s: string): (r: string)
    ensures |r| == |s|
  {
    if s == [] then [] else [LowerAscii(s[0])] + LowerAll(s[1..])
  }

  /** `s.capitalize()` on ASCII letters: first character upper case, the rest lower case. */
  function Capitalize(s: string): (r: string)
    ensures |r| == |s|
    ensures s != [] ==> r[0] == UpperAscii(s[0]) && r[1..] == LowerAll(s[1..])
  {
    if s == [] then [] else [UpperAscii(s[0])] + LowerAll(s[1..])
  }

  // ---------------------------------------------------------------- digits

  predicate IsDigit(c: char) {
    '0' <= c <= '9'
  }

  predicate AllDigits(s: string) {
    forall i :: 0 <= i < |s| ==> IsDigit(s[i])
  }

  function DigitChar(d: nat): (c: char)
    requires d < 10
    ensures IsDigit(c)
  {
    ('0' as int + d) as char
  }

  function DigitValue(c: char): (d: nat)
    requires IsDigit(c)
    ensures d < 10 && DigitChar(d) == c
  {
    c as int - '0' as int
  }

  /** The number a string of decimal digits denotes. */
  function DigitsValue(s: string): nat
    requires AllDigits(s)
  {
    if s == [] then 0 else DigitsValue(s[..|s| - 1]) * 10 + DigitValue(s[|s| - 1])
  }

  function Pow10(n: nat): (p: nat)
    ensures p >= 1
  {
    if n == 0 then 1 else 10 * Pow10(n - 1)
  }

  /** `k` digits denote a number below `10 ** k`. */
  lemma {:induction false} DigitsBelow(s: string)
    requires AllDigits(s)
    ensures DigitsValue(s) < Pow10(|s|)
  {
    if s != [] {
      DigitsBelow(s[..|s| - 1]);
    }
  }

  /** `n` written with exactly `width` digits, zero-padded (`%0*d`). */
  function Padded(n: nat, width: nat): (s: string)
    ensures |s| == width && AllDigits(s)
  {
    if width == 0 then "" else Padded(n / 10, width - 1) + [DigitChar(n % 10)]
  }

  /** A number that fits in `width` digits is read back from its padded text. */
  lemma {:induction false} PaddedValue(n: nat, width: nat)
    requires n < Pow10(width)
    ensures DigitsValue(Padded(n, width)) == n
  {
    if width > 0 {
      PaddedValue(n / 10, width - 1);
      var s := Padded(n, width);
      assert s[..|s| - 1] == Padded(n / 10, width - 1);
    }
  }

  /** A digit string is the padded text of its own value. */
  lemma {:induction false} PaddedOfDigits(s: string)
    requires AllDigits(s)
    ensures Padded(DigitsValue(s), |s|) == s
  {
    if s != [] {
      var init := s[..|s| - 1];
      var v := DigitsValue(s);
      assert v / 10 == DigitsValue(init) && v % 10 == DigitValue(s[|s| - 1]);
      PaddedOfDigits(init);
      assert s == init + [s[|s| - 1]];
    }
  }

  /** `str(n)` for a natural number. */
  function NatText(n: nat): (s: string)
    ensures s != [] && AllDigits(s)
  {
    if n < 10 then [DigitChar(n)] else NatText(n / 10) + [DigitChar(n % 10)]
  }

  /** `str(n)` reads back as `n`. */
  lemma {:induction false} NatTextValue(n: nat)
    ensures DigitsValue(NatText(n)) == n
  {
    if n >= 10 {
      NatTextValue(n / 10);
      var s := NatText(n);
      assert s[..|s| - 1] == NatText(n / 10);
    }
  }

  // ---------------------------------------------------------------- decimal numerals

  /** The position of the first exponent letter, `e` or `E`, or `|s|` when there is none. */
  function ExponentMark(s: string): (k: nat)
    ensures k <= |s|
    ensures forall i :: 0 <= i < k ==> s[i] != 'e' && s[i] != 'E'
    ensures k < |s| ==> s[k] == 'e' || s[k] == 'E'
  {
    if s == [] || s[0] == 'e' || s[0] == 'E' then 0 else 1 + ExponentMark(s[1..])
  }

  /** `whole + fraction / 10 ** k`: the value of `whole`, a point and `k` fraction digits. */
  function Decimal(whole: nat, fraction: nat, k: nat): (r: real)
    ensures r >= whole as real
  {
    whole as real + fraction as real / Pow10(k) as real
  }

  /** A mantissa `digits [. digits]` or `. digits` with at least one digit, as an exact real. */
  function MantissaValue(s: string): (r: Option<real>)
    ensures r.Some? ==> s != []
    ensures r.Some? ==> r.value >= 0.0
  {
    var whole := Before(s, '.');
    var fraction := if |whole| == |s| then "" else s[|whole| + 1..];
    if AllDigits(whole) && AllDigits(fraction) && |whole| + |fraction| > 0 then
      Some(Decimal(DigitsValue(whole), DigitsValue(fraction), |fraction|))
    else None
  }

  /** An exponent `[sign] digits`. */
  function ExponentValue(s: string): (r: Option<int>)
    ensures r.Some? ==> s != []
  {
    if s != [] && (s[0] == '+' || s[0] == '-') then
      var digits := s[1..];
      if digits != [] && AllDigits(digits) then
        var v: int := DigitsValue(digits);
        Some(if s[0] == '-' then -v else v)
      else None
    else if s != [] && AllDigits(s) then Some(DigitsValue(s))
    else None
  }

  /** `m * 10 ** e`, exactly. */
  function Scale(m: real, e: int): real {
    if e >= 0 then m * Pow10(e) as real else m / Pow10(-e) as real
  }

  /** An unsigned decimal literal: a mantissa, optionally followed by `e` or `E` and an exponent. */
  function UnsignedFloat(s: string): (r: Option<real>)
    ensures r.Some? ==> r.value >= 0.0
  {
    var k := ExponentMark(s);
    if k == |s| then MantissaValue(s)
    else
      match (MantissaValue(s[..k]), ExponentValue(s[k + 1..]))
      case (Some(m), Some(e)) => Some(Scale(m, e))
      case _ => None
  }

  /** A stripped literal: an optional sign, then an unsigned decimal literal. */
  function SignedFloat(t: string): (r: Option<real>)
    ensures t == [] ==> r.None?
    ensures r.Some? && r.value < 0.0 ==> t[0] == '-'
  {
    if t != [] && (t[0] == '+' || t[0] == '-') then
      match UnsignedFloat(t[1..])
      case Some(v) => Some(if t[0] == '-' then -v else v)
      case None => None
    else UnsignedFloat(t)
  }

  /** Python's `float(s)` on decimal literals: surrounding whitespace is ignored, a sign
      may lead, and the rest is an unsigned decimal literal; `None` where `float` raises
      `ValueError`. The value is the exact real the literal denotes. */
  function FloatOfText(s: string): (r: Option<real>)
    ensures Strip(s) == [] ==> r.None?
    ensures r.Some? && r.value < 0.0 ==> Strip(s)[0] == '-'
  {
    SignedFloat(Strip(s))
  }

  lemma {:induction false} BeforeAt(x: string, ch: char, y: string)
    requires ch !in x
    ensures Before(x + [ch] + y, ch) == x
  {
    if x != [] {
      assert (x + [ch] + y)[1..] == x[1..] + [ch] + y;
      BeforeAt(x[1..], ch, y);
    }
  }

  lemma {:induction false} BeforeNone(s: string, ch: char)
    requires ch !in s
    ensures Before(s, ch) == s
  {
    if s != [] {
      BeforeNone(s[1..], ch);
    }
  }

  lemma {:induction false} ExponentMarkDigits(s: string)
    requires AllDigits(s)
    ensures ExponentMark(s) == |s|
  {
    if s != [] {
      ExponentMarkDigits(s[1..]);
    }
  }

  lemma {:induction false} ExponentMarkAt(x: string, y: string)
    requires AllDigits(x)
    ensures ExponentMark(x + "e" + y) == |x|
  {
    if x != [] {
      assert (x + "e" + y)[1..] == x[1..] + "e" + y;
      ExponentMarkAt(x[1..], y);
    }
  }

  lemma {:induction false} DigitsAvoid(s: string, ch: char)
    requires AllDigits(s) && !IsDigit(ch)
    ensures ch !in s
  {
    forall i | 0 <= i < |s| ensures s[i] != ch {
      assert IsDigit(s[i]);
    }
  }

  /** A digit string is a mantissa with no fraction. */
  lemma {:induction false} MantissaOfDigits(w: string)
    requires w != [] && AllDigits(w)
    ensures MantissaValue(w) == Some(DigitsValue(w) as real)
  {
    DigitsAvoid(w, '.');
    BeforeNone(w, '.');
  }

  /** `w.f` is the mantissa `w + f / 10 ** |f|`. */
  lemma {:induction false} MantissaOfPoint(w: string, f: string)
    requires w != [] && AllDigits(w) && AllDigits(f)
    ensures MantissaValue(w + "." + f) == Some(Decimal(DigitsValue(w), DigitsValue(f), |f|))
  {
    var s := w + "." + f;
    DigitsAvoid(w, '.');
    BeforeAt(w, '.', f);
    assert s[|w| + 1..] == f;
  }

  /** A literal of digits and a point, with no exponent letter, is its mantissa. */
  lemma {:induction false} ExponentMarkPoint(w: string, f: string)
    requires AllDigits(w) && AllDigits(f)
    ensures ExponentMark(w + "." + f) == |w + "." + f|
  {
    if w == [] {
      assert ("." + f)[1..] == f;
      ExponentMarkDigits(f);
    } else {
      assert (w + "." + f)[1..] == w[1..] + "." + f;
      ExponentMarkPoint(w[1..], f);
    }
  }

  /** `ExponentValue` reads a plain and a negative exponent. */
  lemma {:induction false} ExponentOfDigits(y: string)
    requires y != [] && AllDigits(y)
    ensures ExponentValue(y) == Some(DigitsValue(y) as int)
    ensures ExponentValue("-" + y) == Some(-(DigitsValue(y) as int))
  {
    assert ("-" + y)[1..] == y;
  }

  /** A digit mantissa followed by `e` and an exponent text scales by that exponent. */
  lemma {:induction false} UnsignedExponent(w: string, z: string)
    requires w != [] && AllDigits(w)
    ensures UnsignedFloat(w + "e" + z)
            == match ExponentValue(z) case Some(e) => Some(Scale(DigitsValue(w) as real, e))
                                      case None => None
  {
    var s := w + "e" + z;
    ExponentMarkAt(w, z);
    assert s[..|w|] == w && s[|w| + 1..] == z;
    MantissaOfDigits(w);
  }

  /** A text that starts and ends with a digit is the literal it strips to. */
  lemma {:induction false} FloatOfPlain(s: string)
    requires s != [] && IsDigit(s[0]) && IsDigit(s[|s| - 1])
    ensures FloatOfText(s) == UnsignedFloat(s)
  {
    assert Strip(s) == s by { StripKeeps(s); }
  }

  lemma {:induction false} SignedMinus(s: string)
    ensures SignedFloat("-" + s) == match UnsignedFloat(s) case Some(v) => Some(-v) case None => None
  {
    assert ("-" + s)[1..] == s;
  }

  lemma {:induction false} StripMinus(s: string)
    requires s != [] && IsDigit(s[|s| - 1])
    ensures Strip("-" + s) == "-" + s
  {
    var m := "-" + s;
    assert m[|m| - 1] == s[|s| - 1];
    StripKeeps(m);
  }

  /** A leading `-` negates a literal that ends with a digit. */
  lemma {:induction false} FloatOfMinus(s: string)
    requires s != [] && IsDigit(s[|s| - 1])
    ensures FloatOfText("-" + s) == match UnsignedFloat(s) case Some(v) => Some(-v) case None => None
  {
    StripMinus(s);
    SignedMinus(s);
  }

  /** A digit string reads as its value. */
  lemma {:induction false} FloatOfDigits(s: string)
    requires s != [] && AllDigits(s)
    ensures FloatOfText(s) == Some(DigitsValue(s) as real)
  {
    UnsignedOfDigits(s);
    FloatOfPlain(s);
  }

  lemma {:induction false} UnsignedOfDigits(s: string)
    requires s != [] && AllDigits(s)
    ensures UnsignedFloat(s) == Some(DigitsValue(s) as real)
  {
    ExponentMarkDigits(s);
    MantissaOfDigits(s);
  }

  /** A digit string after `-` reads as its value negated. */
  lemma {:induction false} FloatOfMinusDigits(s: string)
    requires s != [] && AllDigits(s)
    ensures FloatOfText("-" + s) == Some(-(DigitsValue(s) as real))
  {
    UnsignedOfDigits(s);
    assert IsDigit(s[|s| - 1]);
    FloatOfMinus(s);
  }

  /** `float(str(n)) == n` and `float('-' + str(n)) == -n`. */
  lemma {:induction false} FloatOfNatText(n: nat)
    ensures FloatOfText(NatText(n)) == Some(n as real)
    ensures FloatOfText("-" + NatText(n)) == Some(-(n as real))
  {
    FloatOfNatPlain(n, NatText(n));
    FloatOfNatMinus(n, NatText(n));
  }

  lemma {:induction false} FloatOfNatPlain(n: nat, s: string)
    requires s == NatText(n)
    ensures FloatOfText(s) == Some(n as real)
  {
    assert DigitsValue(s) == n by { NatTextValue(n); }
    FloatOfDigits(s);
  }

  lemma {:induction false} FloatOfNatMinus(n: nat, s: string)
    requires s == NatText(n)
    ensures FloatOfText("-" + s) == Some(-(n as real))
  {
    assert DigitsValue(s) == n by { NatTextValue(n); }
    FloatOfMinusDigits(s);
  }

  /** Digits, a point and digits read as the decimal they write. */
  lemma {:induction false} FloatOfPointDigits(w: string, f: string)
    requires w != [] && AllDigits(w) && AllDigits(f)
    ensures FloatOfText(w + "." + f) == Some(Decimal(DigitsValue(w), DigitsValue(f), |f|))
  {
    var s := w + "." + f;
    assert UnsignedFloat(s) == Some(Decimal(DigitsValue(w), DigitsValue(f), |f|)) by {
      MantissaOfPoint(w, f);
      ExponentMarkPoint(w, f);
    }
    assert Strip(s) == s by {
      assert s[0] == w[0] && s[|s| - 1] == (if f == [] then '.' else f[|f| - 1]);
      StripKeeps(s);
    }
    assert s[0] == w[0];
  }

  /** `float(str(a) + '.' + d)`, for `d` the `k` digits of `b`, is `a + b / 10 ** k`. */
  lemma {:induction false} FloatOfDecimalText(a: nat, b: nat, k: nat)
    requires b < Pow10(k)
    ensures FloatOfText(NatText(a) + "." + Padded(b, k)) == Some(Decimal(a, b, k))
  {
    FloatOfPointDigits(NatText(a), Padded(b, k));
    NatTextValue(a);
    PaddedValue(b, k);
  }

  /** Digits, `e` and digits read as the mantissa times ten to the exponent. */
  lemma {:induction false} FloatOfExponentDigits(w: string, x: string)
    requires w != [] && AllDigits(w) && x != [] && AllDigits(x)
    ensures FloatOfText(w + "e" + x) == Some(Scale(DigitsValue(w) as real, DigitsValue(x)))
  {
    var s := w + "e" + x;
    assert UnsignedFloat(s) == Some(Scale(DigitsValue(w) as real, DigitsValue(x))) by {
      ExponentOfDigits(x);
      UnsignedExponent(w, x);
    }
    assert s[0] == w[0] && s[|s| - 1] == x[|x| - 1];
    FloatOfPlain(s);
  }

  /** Digits, `e-` and digits read as the mantissa divided by ten to the exponent. */
  lemma {:induction false} FloatOfNegativeExponentDigits(w: string, x: string)
    requires w != [] && AllDigits(w) && x != [] && AllDigits(x)
    ensures FloatOfText(w + "e-" + x) == Some(Scale(DigitsValue(w) as real, -(DigitsValue(x) as int)))
  {
    UnsignedMinusExponent(w, x);
    DigitEnds(w, "e-", x);
    FloatOfPlain(w + "e-" + x);
  }

  lemma {:induction false} UnsignedMinusExponent(w: string, x: string)
    requires w != [] && AllDigits(w) && x != [] && AllDigits(x)
    ensures UnsignedFloat(w + "e-" + x) == Some(Scale(DigitsValue(w) as real, -(DigitsValue(x) as int)))
  {
    var z := "-" + x;
    MinusExponentSplit(w, x);
    ExponentOfDigits(x);
    UnsignedExponent(w, z);
  }

  lemma MinusExponentSplit(w: string, x: string)
    ensures w + "e-" + x == w + "e" + ("-" + x)
  {
  }

  /** A text joined from digit runs around a separator starts and ends with a digit. */
  lemma DigitEnds(w: string, sep: string, x: string)
    requires w != [] && AllDigits(w) && x != [] && AllDigits(x)
    ensures var t := w + sep + x; t != [] && IsDigit(t[0]) && IsDigit(t[|t| - 1])
  {
    var t := w + sep + x;
    assert t[0] == w[0];
    assert t[|t| - 1] == x[|x| - 1];
  }

  /** Scaling by a natural exponent either way is multiplying or dividing by its power. */
  lemma ScaleByPower(m: nat, e: nat)
    ensures Scale(m as real, e) == (m * Pow10(e)) as real
    ensures Scale(m as real, -(e as int)) == m as real / Pow10(e) as real
  {
    if e == 0 {
      assert Pow10(e) == 1;
    }
  }

  /** `float(str(m) + 'e' + str(e))` is `m * 10 ** e`, and `float(str(m) + 'e-' + str(e))`
      is `m / 10 ** e`. */
  lemma {:induction false} FloatOfScientificText(m: nat, e: nat)
    ensures FloatOfText(NatText(m) + "e" + NatText(e)) == Some((m * Pow10(e)) as real)
    ensures FloatOfText(NatText(m) + "e-" + NatText(e)) == Some(m as real / Pow10(e) as real)
  {
    FloatOfScientificUp(m, e);
    FloatOfScientificDown(m, e);
    ScaleByPower(m, e);
  }

  lemma {:induction false} FloatOfScientificUp(m: nat, e: nat)
    ensures FloatOfText(NatText(m) + "e" + NatText(e)) == Some(Scale(m as real, e))
  {
    var w, x := NatText(m), NatText(e);
    assert DigitsValue(w) == m && DigitsValue(x) == e by {
      NatTextValue(m);
      NatTextValue(e);
    }
    FloatOfExponentDigits(w, x);
  }

  lemma {:induction false} FloatOfScientificDown(m: nat, e: nat)
    ensures FloatOfText(NatText(m) + "e-" + NatText(e)) == Some(Scale(m as real, -(e as int)))
  {
    var w, x := NatText(m), NatText(e);
    assert DigitsValue(w) == m && DigitsValue(x) == e by {
      NatTextValue(m);
      NatTextValue(e);
    }
    var d: int := DigitsValue(x);
    assert Scale(DigitsValue(w) as real, -d) == Scale(m as real, -(e as int));
    FloatOfNegativeExponentDigits(w, x);
  }

  /** The empty literal is no number. */
  lemma UnsignedEmpty()
    ensures UnsignedFloat("") == None
  {
    assert ExponentMark("") == 0;
    assert Before("", '.') == "";
  }

  /** A lone sign is no number: `float('-')` raises. */
  lemma {:induction false} FloatOfLoneMinus()
    ensures FloatOfText("-") == None
  {
    assert Strip("-") == "-" by { StripKeeps("-"); }
    AppendNothing("-");
    SignedMinus("");
    UnsignedEmpty();
  }

  lemma AppendNothing(s: string)
    ensures s + "" == s
  {
  }

  /** The characters a decimal literal may contain. */
  predicate NumeralChar(c: char) {
    IsDigit(c) || c == '.' || c == 'e' || c == 'E' || c == '+' || c == '-'
  }

  predicate AllNumeral(s: string) {
    forall i :: 0 <= i < |s| ==> NumeralChar(s[i])
  }

  lemma AllNumeralJoin(x: string, y: string)
    requires AllNumeral(x) && AllNumeral(y)
    ensures AllNumeral(x + y)
  {
    forall i | 0 <= i < |x + y| ensures NumeralChar((x + y)[i]) {
      if i >= |x| {
        assert (x + y)[i] == y[i - |x|];
      }
    }
  }

  lemma DigitsNumeral(s: string)
    requires AllDigits(s)
    ensures AllNumeral(s)
  {
  }

  lemma {:induction false} MantissaChars(s: string)
    requires MantissaValue(s).Some?
    ensures AllNumeral(s)
  {
    var whole := Before(s, '.');
    if |whole| < |s| {
      var fraction := s[|whole| + 1..];
      assert s == whole + [s[|whole|]] + fraction;
      DigitsNumeral(whole);
      DigitsNumeral(fraction);
      AllNumeralJoin(whole, [s[|whole|]]);
      AllNumeralJoin(whole + [s[|whole|]], fraction);
    } else {
      assert whole == s;
      DigitsNumeral(s);
    }
  }

  lemma {:induction false} ExponentChars(s: string)
    requires ExponentValue(s).Some?
    ensures AllNumeral(s)
  {
    if s[0] == '+' || s[0] == '-' {
      assert s == [s[0]] + s[1..];
      DigitsNumeral(s[1..]);
      AllNumeralJoin([s[0]], s[1..]);
    } else {
      DigitsNumeral(s);
    }
  }

  lemma {:induction false} UnsignedChars(s: string)
    requires UnsignedFloat(s).Some?
    ensures AllNumeral(s)
  {
    var k := ExponentMark(s);
    if k == |s| {
      MantissaChars(s);
    } else {
      MantissaChars(s[..k]);
      ExponentChars(s[k + 1..]);
      AllNumeralAround(s, k);
    }
  }

  /** A text is all numeral characters when the parts before and after a numeral
      character at position `k` are. */
  lemma AllNumeralAround(s: string, k: nat)
    requires k < |s| && NumeralChar(s[k]) && AllNumeral(s[..k]) && AllNumeral(s[k + 1..])
    ensures AllNumeral(s)
  {
    forall i | 0 <= i < |s| ensures NumeralChar(s[i]) {
      if i < k {
        assert s[i] == s[..k][i];
      } else if i > k {
        assert s[i] == s[k + 1..][i - k - 1];
      }
    }
  }

  /** `float` rejects every text whose stripped form holds a character that no decimal
      literal contains (a letter other than `e`, a comma, a currency sign, ...). */
  lemma {:induction false} FloatOfTextChars(s: string)
    requires FloatOfText(s).Some?
    ensures AllNumeral(Strip(s))
  {
    var t := Strip(s);
    if t[0] == '+' || t[0] == '-' {
      UnsignedChars(t[1..]);
      AllNumeralAround(t, 0);
    } else {
      UnsignedChars(t);
    }
  }

  // ---------------------------------------------------------------- ordering

  /** Python's `a <= b` on strings: lexicographic by code point, a proper prefix first. */
  predicate StrLe(a: string, b: string) {
    a == [] || (b != [] && (a[0] < b[0] || (a[0] == b[0] && StrLe(a[1..], b[1..]))))
  }

  lemma {:induction false} StrLeTotal(a: string, b: string)
    ensures StrLe(a, b) || StrLe(b, a)
  {
    if a != [] && b != [] && a[0] == b[0] {
      StrLeTotal(a[1..], b[1..]);
    }
  }

  lemma {:induction false} StrLeTransitive(a: string, b: string, c: string)
    requires StrLe(a, b) && StrLe(b, c)
    ensures StrLe(a, c)
  {
    if a != [] && a[0] == b[0] && b[0] == c[0] {
      StrLeTransitive(a[1..], b[1..], c[1..]);
    }
  }

  lemma {:induction false} StrLeAntisymmetric(a: string, b: string)
    requires StrLe(a, b) && StrLe(b, a)
    ensures a == b
  {
    if a != [] {
      StrLeAntisymmetric(a[1..], b[1..]);
      assert a == [a[0]] + a[1..] && b == [b[0]] + b[1..];
    }
  }
}
