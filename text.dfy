/** The parts of Python's `str` the modelled servers use: `str(n)` and
    `int(s)` on integers, `find`, `in`, `startswith`, `rstrip`, `split` on a
    separator and `split` on whitespace. */
module Text {
  /** The decimal digits of `n`, as `str` writes them. */
  function Digits(n: nat): (s: string)
    ensures |s| >= 1 && forall i :: 0 <= i < |s| ==> '0' <= s[i] <= '9'
    decreases n
  {
    var last := ('0' as int + n % 10) as char;
    if n < 10 then [last] else Digits(n / 10) + [last]
  }

  /** `str(n)`: a minus sign before a negative number's digits. */
  function Decimal(n: int): (s: string)
    ensures |s| >= 1 && forall i :: 0 <= i < |s| ==> s[i] != ' '
  {
    if n < 0 then "-" + Digits(-n) else Digits(n)
  }

  /** The value of a string of decimal digits. */
  function DigitsValue(s: string): int {
    if s == [] then 0 else DigitsValue(s[..|s| - 1]) * 10 + (s[|s| - 1] as int - '0' as int)
  }

  /** `int(s)` on what `str` writes. */
  function ParseDecimal(s: string): int {
    if |s| > 0 && s[0] == '-' then -DigitsValue(s[1..]) else DigitsValue(s)
  }

  lemma {:induction false} DigitsRoundTrip(n: nat)
    ensures DigitsValue(Digits(n)) == n
    decreases n
  {
    var s := Digits(n);
    if n >= 10 {
      DigitsRoundTrip(n / 10);
      assert s[..|s| - 1] == Digits(n / 10);
    }
  }

  /** Reading back what `str` writes gives the number again. */
  lemma DecimalRoundTrip(n: int)
    ensures ParseDecimal(Decimal(n)) == n
  {
    if n < 0 {
      DigitsRoundTrip(-n);
      assert Decimal(n)[1..] == Digits(-n);
    } else {
      DigitsRoundTrip(n);
    }
  }

  // ----- find, in, startswith, rstrip -----

  /** `s` holds `pat` at index `i`. */
  predicate At(s: string, pat: string, i: nat) {
    i + |pat| <= |s| && s[i..i + |pat|] == pat
  }

  /** `s.find(pat, i)` for a non-empty `pat`: the first index from `i` on
      where `pat` occurs, or -1. */
  function FindFrom(s: string, pat: string, i: nat): (r: int)
    requires pat != []
    ensures r == -1 || (i <= r && At(s, pat, r))
    ensures forall j :: i <= j && (r == -1 || j < r) ==> !At(s, pat, j)
    decreases |s| - i
  {
    if i + |pat| > |s| then -1
    else if s[i..i + |pat|] == pat then i
    else FindFrom(s, pat, i + 1)
  }

  /** `s.find(pat)`. */
  function Find(s: string, pat: string): (r: int)
    requires pat != []
    ensures r == -1 || (0 <= r && At(s, pat, r))
    ensures forall j :: 0 <= j && (r == -1 || j < r) ==> !At(s, pat, j)
  {
    FindFrom(s, pat, 0)
  }

  /** `pat in s`. */
  predicate Contains(s: string, pat: string)
    requires pat != []
  {
    Find(s, pat) != -1
  }

  /** `s.startswith(p)`. */
  predicate StartsWith(s: string, p: string) {
    |p| <= |s| && s[..|p|] == p
  }

  /** `s.endswith(p)`. */
  predicate EndsWith(s: string, p: string) {
    |p| <= |s| && s[|s| - |p|..] == p
  }

  /** `s.rstrip(chars)`. */
  function RStrip(s: string, chars: set<char>): (r: string)
    ensures |r| <= |s| && r == s[..|r|]
    ensures r == [] || r[|r| - 1] !in chars
    ensures forall i :: |r| <= i < |s| ==> s[i] in chars
  {
    if s != [] && s[|s| - 1] in chars then RStrip(s[..|s| - 1], chars) else s
  }

  // ----- split on one character -----

  /** `s.split(c)`: the pieces between the occurrences of `c`. */
  function Split(s: string, c: char): (r: seq<string>)
    ensures |r| >= 1
    decreases |s|
  {
    if s == [] then [""]
    else
      var rest := Split(s[1..], c);
      if s[0] == c then [""] + rest else [[s[0]] + rest[0]] + rest[1..]
  }

  /** `c.join(pieces)`. */
  function Join(pieces: seq<string>, c: char): (r: string)
    requires |pieces| >= 1
    ensures |r| >= |pieces| - 1
    ensures StartsWith(r, pieces[0])
    ensures EndsWith(r, pieces[|pieces| - 1])
    decreases |pieces|
  {
    if |pieces| == 1 then pieces[0]
    else
      var rest := Join(pieces[1..], c);
      assert pieces[1..][|pieces[1..]| - 1] == pieces[|pieces| - 1];
      assert (pieces[0] + [c] + rest)[|pieces[0]| + 1 + |rest| - |pieces[|pieces| - 1]|..] == rest[|rest| - |pieces[|pieces| - 1]|..];
      pieces[0] + [c] + rest
  }

  /** No piece holds the separator. */
  lemma {:induction false} SplitPiecesFree(s: string, c: char)
    ensures forall k :: 0 <= k < |Split(s, c)| ==> c !in Split(s, c)[k]
    decreases |s|
  {
    if s != [] {
      SplitPiecesFree(s[1..], c);
    }
  }

  /** Joining the pieces gives the string back. */
  lemma {:induction false} JoinSplit(s: string, c: char)
    ensures Join(Split(s, c), c) == s
    decreases |s|
  {
    if s != [] {
      var rest := Split(s[1..], c);
      JoinSplit(s[1..], c);
      if s[0] != c && |rest| > 1 {
        assert ([s[0]] + rest[0]) + [c] + Join(rest[1..], c) == [s[0]] + (rest[0] + [c] + Join(rest[1..], c));
      }
    }
  }

  /** A piece free of the separator, the separator, then the rest: the
      piece comes first. */
  lemma {:induction false} SplitCons(a: string, b: string, c: char)
    requires c !in a
    ensures Split(a + [c] + b, c) == [a] + Split(b, c)
    decreases |a|
  {
    if a == [] {
      assert a + [c] + b == [c] + b;
      assert ([c] + b)[1..] == b;
    } else {
      assert (a + [c] + b)[1..] == a[1..] + [c] + b;
      SplitCons(a[1..], b, c);
      assert [a[0]] + a[1..] == a;
    }
  }

  /** A string free of the separator is one piece. */
  lemma {:induction false} SplitWhole(a: string, c: char)
    requires c !in a
    ensures Split(a, c) == [a]
    decreases |a|
  {
    if a != [] {
      SplitWhole(a[1..], c);
      assert [a[0]] + a[1..] == a;
    }
  }

  /** Splitting the join of separator-free pieces gives the pieces back. */
  lemma {:induction false} SplitJoin(pieces: seq<string>, c: char)
    requires |pieces| >= 1 && forall k :: 0 <= k < |pieces| ==> c !in pieces[k]
    ensures Split(Join(pieces, c), c) == pieces
    decreases |pieces|
  {
    if |pieces| == 1 {
      SplitWhole(pieces[0], c);
    } else {
      SplitJoin(pieces[1..], c);
      SplitCons(pieces[0], Join(pieces[1..], c), c);
      assert [pieces[0]] + pieces[1..] == pieces;
    }
  }

  /** `s.split(c)` has a second piece exactly when `c` occurs in `s`. */
  lemma {:induction false} SplitSingle(s: string, c: char)
    ensures |Split(s, c)| == 1 <==> c !in s
    decreases |s|
  {
    if s != [] {
      SplitSingle(s[1..], c);
      assert c in s <==> s[0] == c || c in s[1..];
    }
  }

  /** The first occurrence is the one `find` reports. */
  lemma FindFirst(s: string, pat: string, k: nat)
    requires pat != [] && At(s, pat, k)
    requires forall j :: 0 <= j < k ==> !At(s, pat, j)
    ensures Find(s, pat) == k
  {
  }

  /** Stripping a tail of strippable characters from a string that does not
      end in one gives that string back. */
  lemma RStripTail(s: string, t: string, chars: set<char>)
    requires s == [] || s[|s| - 1] !in chars
    requires forall i :: 0 <= i < |t| ==> t[i] in chars
    ensures RStrip(s + t, chars) == s
  {
    var r := RStrip(s + t, chars);
    if s != [] {
      assert (s + t)[|s| - 1] == s[|s| - 1];
    }
    assert r == (s + t)[..|s|] == s;
  }

  // ----- split on whitespace -----

  /** `c.isspace()`. */
  predicate IsSpace(c: char) {
    || '\t' <= c <= '\r'
    || '\U{1C}' <= c <= ' '
    || c == '\U{85}' || c == '\U{A0}' || c == '\U{1680}'
    || '\U{2000}' <= c <= '\U{200A}'
    || c == '\U{2028}' || c == '\U{2029}' || c == '\U{202F}' || c == '\U{205F}' || c == '\U{3000}'
  }

  predicate Blank(s: string) {
    forall i :: 0 <= i < |s| ==> IsSpace(s[i])
  }

  /** A word: characters and no whitespace. */
  predicate IsWord(s: string) {
    s != [] && forall i :: 0 <= i < |s| ==> !IsSpace(s[i])
  }

  /** The first index from `i` on that does not hold whitespace. */
  function SkipSpace(s: string, i: nat): (k: nat)
    requires i <= |s|
    ensures i <= k <= |s| && Blank(s[i..k]) && (k == |s| || !IsSpace(s[k]))
    decreases |s| - i
  {
    if i < |s| && IsSpace(s[i]) then SkipSpace(s, i + 1) else i
  }

  /** The first index from `i` on that holds whitespace. */
  function SkipWord(s: string, i: nat): (k: nat)
    requires i <= |s|
    ensures i <= k <= |s| && (forall j :: i <= j < k ==> !IsSpace(s[j])) && (k == |s| || IsSpace(s[k]))
    decreases |s| - i
  {
    if i < |s| && !IsSpace(s[i]) then SkipWord(s, i + 1) else i
  }

  /** `s.split(maxsplit=1)`: no word, one word, or the first word and the
      rest after the whitespace that follows it. */
  function SplitOnce(s: string): (r: seq<string>)
    ensures |r| <= 2 && (r == [] <==> Blank(s))
    ensures |r| >= 1 ==> IsWord(r[0])
    ensures |r| == 2 ==> r[1] != [] && !IsSpace(r[1][0])
  {
    var a := SkipSpace(s, 0);
    if a == |s| then
      assert s[0..a] == s;
      []
    else
      var b := SkipWord(s, a);
      var c := SkipSpace(s, b);
      if c == |s| then [s[a..b]] else [s[a..b], s[c..]]
  }

  /** Leading whitespace, a word, whitespace, and a rest that starts with
      no whitespace. */
  predicate SplitsAs(s: string, lead: string, word: string, gap: string, rest: string) {
    && s == lead + word + gap + rest
    && Blank(lead) && IsWord(word) && gap != [] && Blank(gap)
    && rest != [] && !IsSpace(rest[0])
  }

  /** Whatever splits in two splits in that shape. */
  lemma SplitOnceShape(s: string)
    requires |SplitOnce(s)| == 2
    ensures exists lead, gap :: SplitsAs(s, lead, SplitOnce(s)[0], gap, SplitOnce(s)[1])
  {
    var a := SkipSpace(s, 0);
    var b := SkipWord(s, a);
    var c := SkipSpace(s, b);
    assert s == s[..a] + s[a..b] + s[b..c] + s[c..];
    assert s[..a] == s[0..a];
    assert SplitsAs(s, s[..a], s[a..b], s[b..c], s[c..]);
  }

  lemma {:induction false} SkipSpaceOver(s: string, i: nat, k: nat)
    requires i <= k <= |s| && Blank(s[i..k]) && (k == |s| || !IsSpace(s[k]))
    ensures SkipSpace(s, i) == k
    decreases k - i
  {
    if i < k {
      assert s[i..k][0] == s[i];
      assert s[i + 1..k] == s[i..k][1..];
      SkipSpaceOver(s, i + 1, k);
    }
  }

  lemma {:induction false} SkipWordOver(s: string, i: nat, k: nat)
    requires i <= k <= |s| && (forall j :: i <= j < k ==> !IsSpace(s[j])) && (k == |s| || IsSpace(s[k]))
    ensures SkipWord(s, i) == k
    decreases k - i
  {
    if i < k {
      SkipWordOver(s, i + 1, k);
    }
  }

  /** And a string of that shape splits into its word and its rest. */
  lemma SplitOnceOfShape(s: string, lead: string, word: string, gap: string, rest: string)
    requires SplitsAs(s, lead, word, gap, rest)
    ensures SplitOnce(s) == [word, rest]
  {
    var a := |lead|;
    var b := a + |word|;
    var c := b + |gap|;
    assert s[0..a] == lead && s[a..b] == word && s[b..c] == gap && s[c..] == rest;
    SkipSpaceOver(s, 0, a);
    forall j | a <= j < b
      ensures !IsSpace(s[j])
    {
      assert s[j] == word[j - a];
    }
    assert s[b] == gap[0];
    SkipWordOver(s, a, b);
    assert s[c] == rest[0];
    SkipSpaceOver(s, b, c);
  }
}
