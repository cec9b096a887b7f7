/** What a manifest reader accepts and what it refuses, line by line. */
module ManifestRules {
  import opened Options
  import opened ManifestText
  import opened Manifest

  // ----- The rules ---------------------------------------------------------------------------------

  /** The first token of a line; blank lines have none. */
  function Tag(line: string): string {
    var ts := Tokens(line);
    if ts == [] then "" else ts[0]
  }

  /** One of the lines before `i` has this tag. */
  ghost predicate Seen(lines: seq<string>, i: nat, tag: string)
    requires i <= |lines|
  {
    exists j :: 0 <= j < i && Tag(lines[j]) == tag
  }

  /** At most 159 characters, and at most 128 before a carriage return. */
  predicate FitsRecord(line: string) {
    |line| <= 159 && (|line| <= 128 || exists k :: 0 <= k <= 128 && line[k] == '\r')
  }

  predicate HexField(ts: seq<string>, k: nat, most: nat) {
    k < |ts| && 1 <= |ts[k]| <= most && AllHex(ts[k])
  }

  /** The line has one field, which spells this segment. */
  predicate Names(line: string, seg: nat) {
    var ts := Tokens(line);
    |ts| == 2 && HexField(ts, 1, 8) && HexValue(ts[1]) == seg
  }

  /** The segment of the lines before `i` is `seg`: every segment record names it, and without
      one it is KSEG0. */
  ghost predicate InForce(lines: seq<string>, i: nat, seg: nat)
    requires i <= |lines|
  {
    && (!Seen(lines, i, "S") ==> seg == 0x8000_0000)
    && forall j :: 0 <= j < i && Tag(lines[j]) == "S" ==> Names(lines[j], seg)
  }

  /** A segment record names a segment with RAM, before every entry and every other segment
      record. */
  ghost predicate GoodSegment(lines: seq<string>, i: nat)
    requires i < |lines|
  {
    && (Names(lines[i], 0) || Names(lines[i], 0x8000_0000) || Names(lines[i], 0xA000_0000))
    && !Seen(lines, i, "S") && !Seen(lines, i, "F")
  }

  /** An entry record has an address and a checksum, and the address lies in the segment in
      force. */
  ghost predicate GoodEntry(lines: seq<string>, i: nat)
    requires i < |lines|
  {
    var ts := Tokens(lines[i]);
    |ts| == 3 && HexField(ts, 1, 8) && HexField(ts, 2, 8) && InForce(lines, i, SegmentOf(HexValue(ts[1])))
  }

  ghost predicate GoodLine(lines: seq<string>, i: nat)
    requires i < |lines|
  {
    var ts := Tokens(lines[i]);
    && FitsRecord(lines[i])
    && (Tag(lines[i]) == "S" ==> GoodSegment(lines, i))
    && (Tag(lines[i]) == "P" ==> |ts| == 2 && HexField(ts, 1, 16))
    && (Tag(lines[i]) == "F" ==> GoodEntry(lines, i))
    && (Tag(lines[i]) == "R" && Seen(lines, i, "F") ==> |ts| == 3 && HexField(ts, 1, 8) && HexField(ts, 2, 8))
  }

  ghost predicate GoodLines(lines: seq<string>, n: nat)
    requires n <= |lines|
  {
    forall i :: 0 <= i < n ==> GoodLine(lines, i)
  }

  ghost predicate Twice(lines: seq<string>, n: nat, tag: string)
    requires n <= |lines|
  {
    exists i, j :: 0 <= i < j < n && Tag(lines[i]) == tag && Tag(lines[j]) == tag
  }

  // ----- The state behind some lines -----------------------------------------------------------------

  ghost predicate Stands(lines: seq<string>, n: nat, st: State)
    requires n <= |lines|
  {
    && (st.funcs != [] <==> Seen(lines, n, "F"))
    && (st.pairs != [] <==> Seen(lines, n, "P"))
    && (|st.pairs| > 1 <==> Twice(lines, n, "P"))
    && (st.segment.Some? <==> Seen(lines, n, "S"))
    && InForce(lines, n, Default(st.segment))
  }

  lemma SeenNext(lines: seq<string>, i: nat, tag: string)
    requires i < |lines|
    ensures Seen(lines, i + 1, tag) <==> Seen(lines, i, tag) || Tag(lines[i]) == tag
  {
  }

  lemma TwiceNext(lines: seq<string>, i: nat, tag: string)
    requires i < |lines|
    ensures Twice(lines, i + 1, tag) <==> Twice(lines, i, tag) || (Seen(lines, i, tag) && Tag(lines[i]) == tag)
  {
    if Seen(lines, i, tag) && Tag(lines[i]) == tag {
      var j :| 0 <= j < i && Tag(lines[j]) == tag;
      assert j < i < i + 1;
    }
    if Twice(lines, i + 1, tag) && !Twice(lines, i, tag) {
      var a, b :| 0 <= a < b < i + 1 && Tag(lines[a]) == tag && Tag(lines[b]) == tag;
      assert b == i;
    }
  }

  lemma InForceNext(lines: seq<string>, i: nat, seg: nat)
    requires i < |lines|
    ensures Tag(lines[i]) != "S" ==> (InForce(lines, i + 1, seg) <==> InForce(lines, i, seg))
    ensures Tag(lines[i]) == "S" && !Seen(lines, i, "S") ==> (InForce(lines, i + 1, seg) <==> Names(lines[i], seg))
  {
    SeenNext(lines, i, "S");
  }

  /** Only one segment is in force. */
  lemma OneInForce(lines: seq<string>, i: nat, a: nat, b: nat)
    requires i <= |lines| && InForce(lines, i, a) && InForce(lines, i, b)
    ensures a == b
  {
    if Seen(lines, i, "S") {
      var j :| 0 <= j < i && Tag(lines[j]) == "S";
      assert Names(lines[j], a) && Names(lines[j], b);
    }
  }

  lemma {:induction false} WidthExact(line: string, most: nat)
    ensures RecordWidth(line) <= most <==> |line| <= most || exists k :: 0 <= k <= most && line[k] == '\r'
    decreases |line|
  {
    if line != "" && line[0] != '\r' && most > 0 {
      WidthExact(line[1..], most - 1);
      if |line| > most {
        WidthShift(line, most);
      }
    }
  }

  lemma WidthShift(line: string, most: nat)
    requires 1 <= most < |line| && line[0] != '\r'
    ensures (exists k :: 0 <= k <= most && line[k] == '\r') <==> exists k :: 0 <= k <= most - 1 && line[1..][k] == '\r'
  {
    if k :| 0 <= k <= most && line[k] == '\r' {
      assert line[1..][k - 1] == '\r';
    }
    if k :| 0 <= k <= most - 1 && line[1..][k] == '\r' {
      assert line[k + 1] == '\r';
    }
  }

  lemma FeedFits(st: State, line: string)
    ensures Feed(st, line) == if FitsRecord(line) then FeedTokens(st, Tokens(line)) else None
  {
    WidthExact(line, 128);
  }

  lemma FieldParses(ts: seq<string>, k: nat, most: nat)
    requires k < |ts|
    ensures ParseHex(ts[k], most) == if HexField(ts, k, most) then Some(HexValue(ts[k])) else None
  {
  }

  lemma SegmentFed(lines: seq<string>, i: nat, st: State)
    requires i < |lines| && Stands(lines, i, st) && Tag(lines[i]) == "S"
    ensures FeedSegment(st, Tokens(lines[i])).Some? <==> GoodSegment(lines, i)
    ensures GoodSegment(lines, i) ==>
              var seg := HexValue(Tokens(lines[i])[1]);
              Names(lines[i], seg) && FeedSegment(st, Tokens(lines[i])) == Some(st.(segment := Some(seg)))
  {
  }

  lemma EntryFed(lines: seq<string>, i: nat, st: State)
    requires i < |lines| && Stands(lines, i, st) && Tag(lines[i]) == "F"
    ensures FeedEntry(st, Tokens(lines[i])).Some? <==> GoodEntry(lines, i)
    ensures GoodEntry(lines, i) ==>
              var ts := Tokens(lines[i]);
              FeedEntry(st, ts) == Some(st.(funcs := st.funcs + [Func(HexValue(ts[1]), HexValue(ts[2]), [])]))
  {
    var ts := Tokens(lines[i]);
    if |ts| == 3 && HexField(ts, 1, 8) {
      var seg := SegmentOf(HexValue(ts[1]));
      if InForce(lines, i, seg) {
        OneInForce(lines, i, seg, Default(st.segment));
      }
    }
  }

  /** One line is taken exactly if it is good, and then the state stands behind it. */
  lemma LineFed(lines: seq<string>, i: nat, st: State)
    requires i < |lines| && Stands(lines, i, st)
    ensures Feed(st, lines[i]).Some? <==> GoodLine(lines, i)
    ensures Feed(st, lines[i]).Some? ==> Stands(lines, i + 1, Feed(st, lines[i]).value)
  {
    FeedFits(st, lines[i]);
    SeenNext(lines, i, "S");
    SeenNext(lines, i, "F");
    SeenNext(lines, i, "P");
    TwiceNext(lines, i, "P");
    if Tag(lines[i]) == "S" {
      SegmentFed(lines, i, st);
      if GoodSegment(lines, i) {
        InForceNext(lines, i, HexValue(Tokens(lines[i])[1]));
      }
    } else {
      InForceNext(lines, i, Default(st.segment));
      if Tag(lines[i]) == "F" {
        EntryFed(lines, i, st);
      }
    }
  }

  lemma {:induction false} LinesFed(lines: seq<string>, i: nat, st: State)
    requires i <= |lines| && Stands(lines, i, st) && GoodLines(lines, i)
    ensures FeedAll(st, lines[i..]).Some? <==> GoodLines(lines, |lines|)
    ensures FeedAll(st, lines[i..]).Some? ==> Stands(lines, |lines|, FeedAll(st, lines[i..]).value)
    decreases |lines| - i
  {
    if i < |lines| {
      LineFed(lines, i, st);
      assert lines[i..][0] == lines[i] && lines[i..][1..] == lines[i + 1..];
      var next := Feed(st, lines[i]);
      if next.Some? {
        LinesFed(lines, i + 1, next.value);
      }
    } else {
      assert lines[i..] == [];
    }
  }

  // ----- What the reader accepts ---------------------------------------------------------------------

  /** The functions that good lines spell: each entry record with the range records up to the
      next. */
  function Spelled(lines: seq<string>): seq<Func> {
    if lines == [] then [] else SpelledOn(Spelled(lines[..|lines| - 1]), Tokens(lines[|lines| - 1]))
  }

  function SpelledOn(front: seq<Func>, ts: seq<string>): seq<Func> {
    if |ts| == 3 && HexField(ts, 1, 8) && HexField(ts, 2, 8) && ts[0] == "F" then
      front + [Func(HexValue(ts[1]), HexValue(ts[2]), [])]
    else if |ts| == 3 && HexField(ts, 1, 8) && HexField(ts, 2, 8) && ts[0] == "R" && front != [] then
      var k := |front| - 1;
      front[k := front[k].(ranges := front[k].ranges + [Span(HexValue(ts[1]), HexValue(ts[2]))])]
    else front
  }

  lemma TokensSpelled(st: State, ts: seq<string>)
    requires FeedTokens(st, ts).Some?
    ensures FeedTokens(st, ts).value.funcs == SpelledOn(st.funcs, ts)
  {
    if |ts| == 3 {
      FieldParses(ts, 1, 8);
      FieldParses(ts, 2, 8);
    }
  }

  lemma LineSpelled(lines: seq<string>, i: nat, st: State)
    requires i < |lines| && Feed(st, lines[i]).Some? && st.funcs == Spelled(lines[..i])
    ensures Feed(st, lines[i]).value.funcs == Spelled(lines[..i + 1])
  {
    assert lines[..i + 1][..i] == lines[..i];
    TokensSpelled(st, Tokens(lines[i]));
  }

  lemma {:induction false} LinesSpelled(lines: seq<string>, i: nat, st: State)
    requires i <= |lines| && Stands(lines, i, st) && GoodLines(lines, |lines|) && st.funcs == Spelled(lines[..i])
    ensures FeedAll(st, lines[i..]).Some? && FeedAll(st, lines[i..]).value.funcs == Spelled(lines)
    decreases |lines| - i
  {
    if i < |lines| {
      LineFed(lines, i, st);
      LineSpelled(lines, i, st);
      assert lines[i..][0] == lines[i] && lines[i..][1..] == lines[i + 1..];
      LinesSpelled(lines, i + 1, Feed(st, lines[i]).value);
    } else {
      assert lines[i..] == [] && lines[..i] == lines;
    }
  }

  /** A range of bytes in the 8 MiB of RAM. */
  predicate RamRange(s: Span) {
    s.length > 0 && s.start % 0x2000_0000 + s.length <= 0x80_0000
  }

  predicate Within(a: nat, s: Span) {
    0 <= a % 0x2000_0000 - s.start % 0x2000_0000 < s.length
  }

  /** One to sixteen ranges of RAM, the entry in one of them. */
  ghost predicate GuardsItself(f: Func) {
    && 1 <= |f.ranges| <= 16 && (forall s :: s in f.ranges ==> RamRange(s))
    && exists s :: s in f.ranges && Within(f.entry, s)
  }

  /** Functions that guard themselves, no two at one physical address. */
  ghost predicate Guardable(fs: seq<Func>) {
    && (forall f :: f in fs ==> GuardsItself(f))
    && forall i, j :: 0 <= i < |fs| && 0 <= j < |fs| && fs[i].entry % 0x2000_0000 == fs[j].entry % 0x2000_0000 ==> i == j
  }

  lemma GuardsExactly(f: Func)
    ensures GoodFunc(f) <==> GuardsItself(f)
  {
    if GoodFunc(f) {
      var i :| 0 <= i < |f.ranges| && Covers(f.ranges[i], f.entry);
      assert f.ranges[i] in f.ranges && Within(f.entry, f.ranges[i]);
    }
    if GuardsItself(f) {
      assert forall i :: 0 <= i < |f.ranges| ==> f.ranges[i] in f.ranges && RamRange(f.ranges[i]);
      var s :| s in f.ranges && Within(f.entry, s);
      var i :| 0 <= i < |f.ranges| && f.ranges[i] == s;
      assert Covers(f.ranges[i], f.entry);
    }
  }

  /** The runtime's contract. */
  lemma RepresentableExactly(fs: seq<Func>)
    ensures Representable(fs) <==> Guardable(fs)
  {
    forall i | 0 <= i < |fs|
      ensures GoodFunc(fs[i]) <==> GuardsItself(fs[i])
    {
      GuardsExactly(fs[i]);
    }
    assert (forall f :: f in fs ==> GuardsItself(f)) <==> forall i :: 0 <= i < |fs| ==> GuardsItself(fs[i]);
  }

  /** Every rule of the reader. */
  ghost predicate Acceptable(text: string, needPair: bool, expected: Option<nat>) {
    var lines := Lines(text);
    && '\0' !in text && GoodLines(lines, |lines|) && Seen(lines, |lines|, "F") && !Twice(lines, |lines|, "P")
    && (needPair ==> Seen(lines, |lines|, "P")) && (expected.Some? ==> InForce(lines, |lines|, expected.value))
    && Guardable(Spelled(lines))
  }

  /** The reader accepts exactly the texts that keep every rule, and gives the functions that
      their lines spell. */
  lemma ParsesExactly(text: string, needPair: bool, expected: Option<nat>)
    ensures Parse(text, needPair, expected).Some? <==> Acceptable(text, needPair, expected)
    ensures Acceptable(text, needPair, expected) ==>
              && Parse(text, needPair, expected).value.funcs == Spelled(Lines(text))
              && (Parse(text, needPair, expected).value.pair.Some? <==> Seen(Lines(text), |Lines(text)|, "P"))
  {
    RepresentableExactly(Spelled(Lines(text)));
    var lines := Lines(text);
    var n := |lines|;
    assert lines[0..] == lines;
    LinesFed(lines, 0, START);
    if GoodLines(lines, n) {
      LinesSpelled(lines, 0, START);
      var st := FeedAll(START, lines).value;
      if expected.Some? && InForce(lines, n, expected.value) {
        OneInForce(lines, n, expected.value, Default(st.segment));
      }
    }
  }
}
