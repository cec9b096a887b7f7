/** Text of the shard manifests: hexadecimal fields, lines and blank-separated tokens. */
module ManifestText {
  import opened Options

  // ----- Hexadecimal fields ------------------------------------------------------------------

  predicate IsHexDigit(c: char) {
    '0' <= c <= '9' || 'A' <= c <= 'F' || 'a' <= c <= 'f'
  }

  function DigitValue(c: char): (v: nat)
    requires IsHexDigit(c)
    ensures v < 16
  {
    if c <= '9' then c as nat - '0' as nat
    else if c <= 'F' then c as nat - 'A' as nat + 10
    else c as nat - 'a' as nat + 10
  }

  /** The digits, in both cases, with their values. */
  lemma DigitsExact(c: char)
    ensures IsHexDigit(c) <==> c in "0123456789ABCDEFabcdef"
    ensures forall k :: 0 <= k < 16 ==> IsHexDigit("0123456789ABCDEF"[k]) && DigitValue("0123456789ABCDEF"[k]) == k
    ensures forall k :: 0 <= k < 6 ==> IsHexDigit("abcdef"[k]) && DigitValue("abcdef"[k]) == 10 + k
  {
    if IsHexDigit(c) {
      var k := DigitValue(c);
      assert c == "0123456789ABCDEF"[k] || (k >= 10 && c == "abcdef"[k - 10]);
    }
  }

  /** Upper-case, as the printer writes it. */
  function Digit(v: nat): (c: char)
    requires v < 16
    ensures IsHexDigit(c) && DigitValue(c) == v
  {
    if v < 10 then ('0' as nat + v) as char else ('A' as nat + v - 10) as char
  }

  predicate AllHex(s: string) {
    forall i :: 0 <= i < |s| ==> IsHexDigit(s[i])
  }

  function HexValue(s: string): nat
    requires AllHex(s)
  {
    if s == "" then 0 else 16 * HexValue(s[..|s| - 1]) + DigitValue(s[|s| - 1])
  }

  /** At least `width` digits, and at least one. */
  function Hex(n: nat, width: nat): (s: string)
    ensures AllHex(s) && s != ""
    decreases n, width
  {
    if n < 16 && width <= 1 then [Digit(n)] else Hex(n / 16, if width == 0 then 0 else width - 1) + [Digit(n % 16)]
  }

  /** One to `most` hexadecimal digits. */
  function ParseHex(s: string, most: nat): Option<nat> {
    if 1 <= |s| <= most && AllHex(s) then Some(HexValue(s)) else None
  }

  function Pow16(n: nat): (p: nat)
    ensures p >= 1
  {
    if n == 0 then 1 else 16 * Pow16(n - 1)
  }

  lemma {:induction false} HexRoundTrip(n: nat, width: nat)
    ensures HexValue(Hex(n, width)) == n
    decreases n, width
  {
    var s := Hex(n, width);
    if n < 16 && width <= 1 {
      assert s[..0] == "";
    } else {
      HexRoundTrip(n / 16, if width == 0 then 0 else width - 1);
      assert s[..|s| - 1] == Hex(n / 16, if width == 0 then 0 else width - 1);
    }
  }

  lemma {:induction false} HexLength(n: nat, width: nat, most: nat)
    requires 1 <= most && width <= most && n < Pow16(most)
    ensures |Hex(n, width)| <= most
    decreases most
  {
    if n >= 16 || width > 1 {
      assert most > 1 by {
        assert Pow16(1) == 16;
      }
      HexLength(n / 16, if width == 0 then 0 else width - 1, most - 1);
    }
  }

  /** A printed field that fits is read back. */
  lemma ParsePrinted(n: nat, width: nat, most: nat)
    requires 1 <= most && width <= most && n < Pow16(most)
    ensures ParseHex(Hex(n, width), most) == Some(n)
  {
    HexRoundTrip(n, width);
    HexLength(n, width, most);
  }

  /** A field of several digits, highest first. */
  lemma KnownField()
    ensures ParseHex("8001002c", 8) == Some(0x8001_002C) && ParseHex("8001002c", 7) == None && ParseHex("", 8) == None
  {
    var s := "8001002c";
    assert s[..7] == "8001002" && s[..7][..6] == "800100" && s[..7][..6][..5] == "80010" && s[..7][..6][..5][..4] == "8001";
    FourDigits("8001");
    assert HexValue("80010") == 0x8_0010;
    assert HexValue("800100") == 0x80_0100;
    assert HexValue("8001002") == 0x800_1002;
  }

  lemma FourDigits(s: string)
    requires |s| == 4 && AllHex(s)
    ensures HexValue(s)
            == 0x1000 * DigitValue(s[0]) + 0x100 * DigitValue(s[1]) + 0x10 * DigitValue(s[2]) + DigitValue(s[3])
  {
    var a, b, c := s[..3], s[..3][..2], s[..3][..2][..1];
    assert c[..0] == "";
    assert HexValue(c) == DigitValue(s[0]);
    assert HexValue(b) == 16 * HexValue(c) + DigitValue(s[1]);
    assert HexValue(a) == 16 * HexValue(b) + DigitValue(s[2]);
  }

  // ----- Lines -----------------------------------------------------------------------------------

  /** Split at line feeds; there is always a last line, perhaps empty. */
  function Lines(text: string): (ls: seq<string>)
    ensures |ls| >= 1
  {
    if text == "" then [""]
    else if text[0] == '\n' then [""] + Lines(text[1..])
    else
      var rest := Lines(text[1..]);
      [[text[0]] + rest[0]] + rest[1..]
  }

  /** Each line with its line feed. */
  function Unlines(ls: seq<string>): string {
    if ls == [] then "" else ls[0] + "\n" + Unlines(ls[1..])
  }

  lemma {:induction false} LinesHead(line: string, rest: string)
    requires '\n' !in line
    ensures Lines(line + "\n" + rest) == [line] + Lines(rest)
    decreases |line|
  {
    var text := line + "\n" + rest;
    if line == "" {
      assert text[1..] == rest;
    } else {
      assert text[0] == line[0] && text[1..] == line[1..] + "\n" + rest;
      LinesHead(line[1..], rest);
      assert [line[0]] + line[1..] == line;
    }
  }

  predicate OneLine(s: string) {
    '\n' !in s
  }

  lemma {:induction false} LinesUnlines(ls: seq<string>)
    requires forall l :: l in ls ==> OneLine(l)
    ensures Lines(Unlines(ls)) == ls + [""]
    decreases |ls|
  {
    if ls != [] {
      assert ls[0] in ls;
      LinesHead(ls[0], Unlines(ls[1..]));
      LinesUnlines(ls[1..]);
      assert [ls[0]] + (ls[1..] + [""]) == ls + [""];
    }
  }

  // ----- Tokens ------------------------------------------------------------------------------------

  predicate IsBlank(c: char) {
    c == ' ' || c == '\t' || c == '\r' || c == '\U{000B}' || c == '\U{000C}'
  }

  /** How many characters a string has before its first blank. */
  function WordLength(s: string): (n: nat)
    ensures n <= |s| && (forall i :: 0 <= i < n ==> !IsBlank(s[i])) && (n < |s| ==> IsBlank(s[n]))
  {
    if s == "" || IsBlank(s[0]) then 0 else 1 + WordLength(s[1..])
  }

  /** The runs of characters between blanks. */
  function Tokens(s: string): seq<string>
    decreases |s|
  {
    if s == "" then []
    else if IsBlank(s[0]) then Tokens(s[1..])
    else
      var n := WordLength(s);
      [s[..n]] + Tokens(s[n..])
  }

  predicate IsWord(s: string) {
    s != "" && forall i :: 0 <= i < |s| ==> !IsBlank(s[i])
  }

  lemma {:induction false} WordLengthIs(s: string, n: nat)
    requires n <= |s| && (forall i :: 0 <= i < n ==> !IsBlank(s[i])) && (n < |s| ==> IsBlank(s[n]))
    ensures WordLength(s) == n
    decreases n
  {
    if n > 0 {
      WordLengthIs(s[1..], n - 1);
    }
  }

  lemma TokensHead(word: string, rest: string)
    requires IsWord(word)
    ensures Tokens(word + " " + rest) == [word] + Tokens(rest)
  {
    var s, n := word + " " + rest, |word|;
    assert forall i :: 0 <= i < n ==> s[i] == word[i];
    assert s[n] == ' ';
    WordLengthIs(s, n);
    assert s[..n] == word && s[n..] == " " + rest;
    assert s[n..][1..] == rest;
    assert Tokens(s[n..]) == Tokens(rest);
  }

  lemma TokensLast(word: string)
    requires IsWord(word)
    ensures Tokens(word) == [word]
  {
    WordLengthIs(word, |word|);
    assert word[..|word|] == word && word[|word|..] == "";
  }

  lemma TwoTokens(a: string, b: string)
    requires IsWord(a) && IsWord(b)
    ensures Tokens(a + " " + b) == [a, b]
  {
    TokensHead(a, b);
    TokensLast(b);
  }

  lemma ThreeTokens(a: string, b: string, c: string)
    requires IsWord(a) && IsWord(b) && IsWord(c)
    ensures Tokens(a + " " + b + " " + c) == [a, b, c]
  {
    assert a + " " + b + " " + c == a + " " + (b + " " + c);
    TokensHead(a, b + " " + c);
    TwoTokens(b, c);
  }

  lemma HexIsWord(n: nat, width: nat)
    ensures IsWord(Hex(n, width)) && '\n' !in Hex(n, width) && '\0' !in Hex(n, width) && '\r' !in Hex(n, width)
  {
    var s := Hex(n, width);
    forall i | 0 <= i < |s|
      ensures !IsBlank(s[i]) && s[i] != '\n' && s[i] != '\0' && s[i] != '\r'
    {
      assert IsHexDigit(s[i]);
    }
  }
}
