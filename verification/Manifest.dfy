/** Shard manifests: what the compiler prints and what the runtime's contract lets a reader
    accept. */
module Manifest {
  import opened Options
  import opened ManifestText
  import opened Segments

  const KSEG0 := 0x8000_0000
  const KSEG1 := 0xA000_0000
  const ADDRESSES := 0x1_0000_0000
  const RAM_SIZE := 0x80_0000
  const MAX_RANGES := 16
  const LINE_MAX := 128
  const PHYSICAL_LINE_MAX := 159

  const OVERLAY: string := "# psxrecomp overlay "
  const CODE_RANGE: string := "code-range "
  const MANIFEST: string := "manifest v2 "
  const FIELDS: string := "(entry+code_crc)"
  const HEADER: string := OVERLAY + CODE_RANGE + MANIFEST + FIELDS
  const ORIGIN: string := "provenance "
  const PROVENANCE: string := OVERLAY + ORIGIN
  const HOSTED: string := "hosted-v1"
  const ORPHAN: string := "orphan-v1"

  datatype Span = Span(start: nat, length: nat)
  datatype Func = Func(entry: nat, crc: nat, ranges: seq<Span>)

  function SegmentOf(a: nat): nat {
    a % ADDRESSES - Phys(a % ADDRESSES)
  }

  predicate NamedSegment(seg: nat) {
    seg == 0 || seg == KSEG0 || seg == KSEG1
  }

  /** A byte extent, spelled in KSEG0 whatever the shard's segment. */
  function Spelled(s: Span): Span {
    Span(Phys(s.start) + KSEG0, s.length)
  }

  function SpelledAll(ss: seq<Span>): (r: seq<Span>)
    ensures |r| == |ss| && forall i :: 0 <= i < |ss| ==> r[i] == Spelled(ss[i])
  {
    seq(|ss|, i requires 0 <= i < |ss| => Spelled(ss[i]))
  }

  /** An identity as a manifest carries it. */
  function Canonical(f: Func): Func {
    Func(f.entry, f.crc % ADDRESSES, SpelledAll(f.ranges))
  }

  function CanonicalAll(fs: seq<Func>): (r: seq<Func>)
    ensures |r| == |fs| && forall i :: 0 <= i < |fs| ==> r[i] == Canonical(fs[i])
  {
    seq(|fs|, i requires 0 <= i < |fs| => Canonical(fs[i]))
  }

  // ----- Printing --------------------------------------------------------------------------------

  function RangeLine(s: Span): string {
    "R" + " " + Hex(Phys(s.start) + KSEG0, 8) + " " + Hex(s.length, 0)
  }

  function RangeLines(ss: seq<Span>): seq<string> {
    if ss == [] then [] else RangeLines(ss[..|ss| - 1]) + [RangeLine(ss[|ss| - 1])]
  }

  function EntryLine(f: Func): string {
    "F" + " " + Hex(f.entry, 8) + " " + Hex(f.crc % ADDRESSES, 8)
  }

  function OneFunc(f: Func): seq<string> {
    [EntryLine(f)] + RangeLines(f.ranges)
  }

  function FuncLines(fs: seq<Func>): seq<string> {
    if fs == [] then [] else FuncLines(fs[..|fs| - 1]) + OneFunc(fs[|fs| - 1])
  }

  function ProvenanceLines(p: Option<string>): seq<string> {
    match p
    case None => []
    case Some(v) => [PROVENANCE + v]
  }

  function SegmentLines(seg: nat): seq<string> {
    if seg == KSEG0 then [] else ["S" + " " + Hex(seg, 8)]
  }

  function PairLines(pair: Option<nat>): seq<string> {
    match pair
    case None => []
    case Some(n) => ["P" + " " + Hex(n % (ADDRESSES * ADDRESSES), 16)]
  }

  predicate KnownProvenance(p: Option<string>) {
    p.None? || p.value == HOSTED || p.value == ORPHAN
  }

  /** All entries are in `seg`; an empty list is in KSEG0. */
  predicate InOneSegment(fs: seq<Func>, seg: nat) {
    (fs == [] ==> seg == KSEG0) && forall i :: 0 <= i < |fs| ==> SegmentOf(fs[i].entry) == seg
  }

  function HeadLines(seg: nat, pair: Option<nat>, p: Option<string>): seq<string> {
    [HEADER] + ProvenanceLines(p) + SegmentLines(seg) + PairLines(pair)
  }

  /** The manifest's text; refused for an unknown provenance, mixed segments, or a segment
      without RAM. */
  function Print(fs: seq<Func>, pair: Option<nat>, p: Option<string>): Option<string> {
    if !KnownProvenance(p) then None
    else
      var seg := if fs == [] then KSEG0 else SegmentOf(fs[0].entry);
      if !InOneSegment(fs, seg) || !NamedSegment(seg) then None
      else Some(Unlines(HeadLines(seg, pair, p) + FuncLines(fs)))
  }

  // ----- Parsing ---------------------------------------------------------------------------------

  datatype State = State(pairs: seq<nat>, funcs: seq<Func>, segment: Option<nat>)

  function Default(segment: Option<nat>): nat {
    if segment.None? then KSEG0 else segment.value
  }

  function FeedSegment(st: State, ts: seq<string>): Option<State>
    requires ts != []
  {
    if |ts| != 2 || st.segment.Some? || st.funcs != [] then None
    else
      var v := ParseHex(ts[1], 8);
      if v.None? || !NamedSegment(v.value) then None else Some(st.(segment := v))
  }

  function FeedPair(st: State, ts: seq<string>): Option<State>
    requires ts != []
  {
    if |ts| != 2 then None
    else
      var v := ParseHex(ts[1], 16);
      if v.None? then None else Some(st.(pairs := st.pairs + [v.value]))
  }

  function FeedEntry(st: State, ts: seq<string>): Option<State>
    requires ts != []
  {
    if |ts| != 3 then None
    else
      var e, c := ParseHex(ts[1], 8), ParseHex(ts[2], 8);
      if e.None? || c.None? || SegmentOf(e.value) != Default(st.segment) then None
      else Some(st.(funcs := st.funcs + [Func(e.value, c.value, [])]))
  }

  function FeedRange(st: State, ts: seq<string>): Option<State>
    requires ts != [] && st.funcs != []
  {
    if |ts| != 3 then None
    else
      var s, n := ParseHex(ts[1], 8), ParseHex(ts[2], 8);
      if s.None? || n.None? then None
      else
        var k := |st.funcs| - 1;
        var f := st.funcs[k];
        Some(st.(funcs := st.funcs[..k] + [f.(ranges := f.ranges + [Span(s.value, n.value)])]))
  }

  function FeedTokens(st: State, ts: seq<string>): Option<State> {
    if ts == [] then Some(st)
    else if ts[0] == "S" then FeedSegment(st, ts)
    else if ts[0] == "P" then FeedPair(st, ts)
    else if ts[0] == "F" then FeedEntry(st, ts)
    else if ts[0] == "R" && st.funcs != [] then FeedRange(st, ts)
    else Some(st)
  }

  /** A record ends at a carriage return, if there is one. */
  function RecordWidth(line: string): nat {
    if line == "" || line[0] == '\r' then 0 else 1 + RecordWidth(line[1..])
  }

  function Feed(st: State, line: string): Option<State> {
    if |line| > PHYSICAL_LINE_MAX || RecordWidth(line) > LINE_MAX then None else FeedTokens(st, Tokens(line))
  }

  function FeedAll(st: State, lines: seq<string>): Option<State>
    decreases |lines|
  {
    if lines == [] then Some(st)
    else
      var next := Feed(st, lines[0]);
      if next.None? then None else FeedAll(next.value, lines[1..])
  }

  predicate InRam(s: Span) {
    s.length > 0 && Phys(s.start) < RAM_SIZE && s.length <= RAM_SIZE - Phys(s.start)
  }

  predicate Covers(s: Span, entry: nat) {
    Phys(s.start) <= Phys(entry) < Phys(s.start) + s.length
  }

  /** What the runtime can represent of one function. */
  predicate GoodFunc(f: Func) {
    && 1 <= |f.ranges| <= MAX_RANGES && (forall i :: 0 <= i < |f.ranges| ==> InRam(f.ranges[i]))
    && exists i :: 0 <= i < |f.ranges| && Covers(f.ranges[i], f.entry)
  }

  predicate DistinctEntries(fs: seq<Func>) {
    forall i, j :: 0 <= i < j < |fs| ==> Phys(fs[i].entry) != Phys(fs[j].entry)
  }

  predicate Representable(fs: seq<Func>) {
    DistinctEntries(fs) && forall i :: 0 <= i < |fs| ==> GoodFunc(fs[i])
  }

  datatype Parsed = Parsed(pair: Option<nat>, funcs: seq<Func>)

  function Finish(st: State, needPair: bool, expected: Option<nat>): Option<Parsed> {
    if |st.pairs| > 1 || (needPair && |st.pairs| != 1) || st.funcs == [] then None
    else if expected.Some? && Default(st.segment) != expected.value then None
    else if !Representable(st.funcs) then None
    else Some(Parsed(if st.pairs == [] then None else Some(st.pairs[0]), st.funcs))
  }

  const START := State([], [], None)

  /** What the reader accepts of a text. */
  function Parse(text: string, needPair: bool, expected: Option<nat>): Option<Parsed> {
    if '\0' in text then None
    else
      var st := FeedAll(START, Lines(text));
      if st.None? then None else Finish(st.value, needPair, expected)
  }

  /** The reader's loop over the lines. */
  method ParseManifest(text: string, needPair: bool, expected: Option<nat>) returns (r: Option<Parsed>)
    ensures r == Parse(text, needPair, expected)
  {
    if '\0' in text {
      return None;
    }
    var lines := Lines(text);
    var st := START;
    for i := 0 to |lines|
      invariant FeedAll(START, lines) == FeedAll(st, lines[i..])
    {
      assert lines[i..][1..] == lines[i + 1..];
      var next := Feed(st, lines[i]);
      if next.None? {
        return None;
      }
      st := next.value;
    }
    r := Finish(st, needPair, expected);
  }

  // ----- Feeding printed lines -----------------------------------------------------------------

  lemma {:induction false} FeedAllConcat(st: State, a: seq<string>, b: seq<string>)
    ensures FeedAll(st, a).None? ==> FeedAll(st, a + b).None?
    ensures FeedAll(st, a).Some? ==> FeedAll(st, a + b) == FeedAll(FeedAll(st, a).value, b)
    decreases |a|
  {
    if a == [] {
      assert a + b == b;
    } else {
      assert (a + b)[1..] == a[1..] + b;
      var next := Feed(st, a[0]);
      if next.Some? {
        FeedAllConcat(next.value, a[1..], b);
      }
    }
  }

  /** Short, and without a control character that means something. */
  predicate Plain(line: string) {
    |line| <= LINE_MAX && forall i :: 0 <= i < |line| ==> line[i] != '\r' && line[i] != '\n' && line[i] != '\0'
  }

  lemma {:induction false} PlainWidth(line: string)
    requires Plain(line)
    ensures RecordWidth(line) == |line|
    decreases |line|
  {
    if line != "" {
      PlainWidth(line[1..]);
    }
  }

  lemma FeedPlain(st: State, line: string)
    requires Plain(line)
    ensures Feed(st, line) == FeedTokens(st, Tokens(line))
  {
    PlainWidth(line);
  }

  lemma PlainHex(n: nat, width: nat, most: nat)
    requires 1 <= most <= 16 && width <= most && n < Pow16(most)
    ensures Plain(Hex(n, width)) && |Hex(n, width)| <= most && IsWord(Hex(n, width))
    ensures ParseHex(Hex(n, width), most) == Some(n)
  {
    ParsePrinted(n, width, most);
    HexLength(n, width, most);
    HexIsWord(n, width);
  }

  lemma PlainJoin(a: string, b: string)
    requires Plain(a) && Plain(b) && |a| + |b| + 1 <= LINE_MAX
    ensures Plain(a + " " + b)
  {
  }

  lemma Powers()
    ensures Pow16(8) == ADDRESSES && Pow16(16) == ADDRESSES * ADDRESSES
  {
    assert Pow16(4) == 0x1_0000;
    assert Pow16(8) == 0x1_0000_0000;
    assert Pow16(12) == 0x1_0000_0000_0000;
  }

  /** Lines that are all plain and lead from one state to another. */
  ghost predicate Leads(st: State, lines: seq<string>, next: State) {
    (forall l :: l in lines ==> Plain(l)) && FeedAll(st, lines) == Some(next)
  }

  lemma LeadsNowhere(st: State)
    ensures Leads(st, [], st)
  {
  }

  lemma LeadsOne(st: State, line: string, next: State)
    requires Plain(line) && FeedTokens(st, Tokens(line)) == Some(next)
    ensures Leads(st, [line], next)
  {
    FeedPlain(st, line);
    assert [line][1..] == [];
    assert FeedAll(next, [line][1..]) == Some(next);
  }

  lemma LeadsOn(st: State, a: seq<string>, mid: State, b: seq<string>, next: State)
    requires Leads(st, a, mid) && Leads(mid, b, next)
    ensures Leads(st, a + b, next)
  {
    FeedAllConcat(st, a, b);
  }

  function AddRange(st: State, s: Span): State
    requires st.funcs != []
  {
    var k := |st.funcs| - 1;
    var f := st.funcs[k];
    st.(funcs := st.funcs[..k] + [f.(ranges := f.ranges + [s])])
  }

  lemma PlainLetter(c: char)
    requires 'A' <= c <= 'Z'
    ensures Plain([c]) && IsWord([c])
  {
  }

  lemma PlainThree(c: char, a: string, b: string)
    requires 'A' <= c <= 'Z' && Plain(a) && Plain(b) && |a| <= 16 && |b| <= 16
    ensures Plain([c] + " " + a + " " + b)
  {
    PlainLetter(c);
    PlainJoin([c], a);
    PlainJoin([c] + " " + a, b);
  }

  lemma RangeLineLeads(st: State, s: Span)
    requires st.funcs != [] && s.length < ADDRESSES
    ensures Leads(st, [RangeLine(s)], AddRange(st, Spelled(s)))
  {
    Powers();
    var a, b := Hex(Phys(s.start) + KSEG0, 8), Hex(s.length, 0);
    PlainHex(Phys(s.start) + KSEG0, 8, 8);
    PlainHex(s.length, 0, 8);
    PlainThree('R', a, b);
    PlainLetter('R');
    ThreeTokens("R", a, b);
    LeadsOne(st, RangeLine(s), AddRange(st, Spelled(s)));
  }

  function WithRanges(st: State, f: Func, ss: seq<Span>): State {
    st.(funcs := st.funcs + [f.(ranges := ss)])
  }

  lemma AddToLast(st: State, f: Func, ss: seq<Span>, s: Span)
    ensures AddRange(WithRanges(st, f, ss), s) == WithRanges(st, f, ss + [s])
  {
    var w := WithRanges(st, f, ss);
    assert w.funcs[..|w.funcs| - 1] == st.funcs;
  }

  lemma {:induction false} RangeLinesLead(st: State, f: Func, ss: seq<Span>)
    requires forall i :: 0 <= i < |ss| ==> ss[i].length < ADDRESSES
    ensures Leads(WithRanges(st, f, []), RangeLines(ss), WithRanges(st, f, SpelledAll(ss)))
    decreases |ss|
  {
    if ss == [] {
      assert SpelledAll(ss) == [];
      LeadsNowhere(WithRanges(st, f, []));
    } else {
      var k := |ss| - 1;
      var front, last := ss[..k], ss[k];
      RangeLinesLead(st, f, front);
      var mid := WithRanges(st, f, SpelledAll(front));
      RangeLineLeads(mid, last);
      AddToLast(st, f, SpelledAll(front), Spelled(last));
      assert SpelledAll(ss) == SpelledAll(front) + [Spelled(last)];
      LeadsOn(WithRanges(st, f, []), RangeLines(front), mid, [RangeLine(last)], WithRanges(st, f, SpelledAll(ss)));
    }
  }

  lemma EntryLineLeads(st: State, f: Func)
    requires f.entry < ADDRESSES && SegmentOf(f.entry) == Default(st.segment)
    ensures Leads(st, [EntryLine(f)], WithRanges(st, Canonical(f), []))
  {
    Powers();
    var a, b := Hex(f.entry, 8), Hex(f.crc % ADDRESSES, 8);
    PlainHex(f.entry, 8, 8);
    PlainHex(f.crc % ADDRESSES, 8, 8);
    PlainThree('F', a, b);
    PlainLetter('F');
    ThreeTokens("F", a, b);
    LeadsOne(st, EntryLine(f), WithRanges(st, Canonical(f), []));
  }

  /** Fields that the printer's widths hold. */
  predicate Fits(f: Func) {
    f.entry < ADDRESSES && forall i :: 0 <= i < |f.ranges| ==> f.ranges[i].length < ADDRESSES
  }

  function WithFuncs(st: State, fs: seq<Func>): State {
    st.(funcs := st.funcs + fs)
  }

  lemma FuncLeads(st: State, f: Func)
    requires Fits(f) && SegmentOf(f.entry) == Default(st.segment)
    ensures Leads(st, OneFunc(f), WithFuncs(st, [Canonical(f)]))
  {
    EntryLineLeads(st, f);
    RangeLinesLead(st, Canonical(f), f.ranges);
    LeadsOn(st, [EntryLine(f)], WithRanges(st, Canonical(f), []), RangeLines(f.ranges),
            WithRanges(st, Canonical(f), SpelledAll(f.ranges)));
  }

  lemma WithFuncsTwice(st: State, fs: seq<Func>, k: nat)
    requires k + 1 == |fs|
    ensures WithFuncs(WithFuncs(st, CanonicalAll(fs[..k])), [Canonical(fs[k])]) == WithFuncs(st, CanonicalAll(fs))
  {
    assert CanonicalAll(fs) == CanonicalAll(fs[..k]) + [Canonical(fs[k])];
  }

  lemma {:induction false} FuncLinesLead(st: State, fs: seq<Func>, seg: nat)
    requires Default(st.segment) == seg && forall i :: 0 <= i < |fs| ==> Fits(fs[i]) && SegmentOf(fs[i].entry) == seg
    ensures Leads(st, FuncLines(fs), WithFuncs(st, CanonicalAll(fs)))
    decreases |fs|
  {
    if fs == [] {
      assert st.funcs + CanonicalAll(fs) == st.funcs;
      LeadsNowhere(st);
    } else {
      var k := |fs| - 1;
      var front, last := fs[..k], fs[k];
      FuncLinesLead(st, front, seg);
      var mid := WithFuncs(st, CanonicalAll(front));
      FuncLeads(mid, last);
      WithFuncsTwice(st, fs, k);
      LeadsOn(st, FuncLines(front), mid, OneFunc(last), WithFuncs(st, CanonicalAll(fs)));
    }
  }

  // ----- The head of a manifest ---------------------------------------------------------------

  /** A comment is skipped. */
  lemma CommentLeads(st: State, line: string)
    requires Plain(line) && line != "" && line[0] == '#'
    ensures Leads(st, [line], st)
  {
    assert Tokens(line)[0][0] == '#';
    LeadsOne(st, line, st);
  }

  lemma PlainAppend(a: string, b: string)
    requires Plain(a) && Plain(b) && |a| + |b| <= LINE_MAX
    ensures Plain(a + b)
  {
  }

  lemma PlainTexts()
    ensures Plain(HEADER) && Plain(PROVENANCE) && Plain(HOSTED) && Plain(ORPHAN)
    ensures |HEADER| == 59 && |PROVENANCE| == 31 && HEADER[0] == '#' && PROVENANCE[0] == '#'
    ensures HEADER[20] == 'c' && PROVENANCE[20] == 'p'
  {
    PlainPieces();
    PlainAppend(OVERLAY, CODE_RANGE);
    PlainAppend(OVERLAY + CODE_RANGE, MANIFEST);
    PlainAppend(OVERLAY + CODE_RANGE + MANIFEST, FIELDS);
    PlainAppend(OVERLAY, ORIGIN);
    assert CODE_RANGE[0] == 'c' && ORIGIN[0] == 'p' && OVERLAY[0] == '#';
    assert HEADER[20] == CODE_RANGE[0];
    assert PROVENANCE[20] == ORIGIN[0];
  }

  lemma PlainPieces()
    ensures Plain(OVERLAY) && Plain(CODE_RANGE) && Plain(MANIFEST) && Plain(FIELDS) && Plain(ORIGIN)
    ensures Plain(HOSTED) && Plain(ORPHAN)
    ensures |OVERLAY| == 20 && |CODE_RANGE| == 11 && |MANIFEST| == 12 && |FIELDS| == 16 && |ORIGIN| == 11
  {
  }

  lemma HeaderLeads(st: State)
    ensures Leads(st, [HEADER], st)
  {
    PlainTexts();
    CommentLeads(st, HEADER);
  }

  lemma ProvenanceLeads(st: State, p: Option<string>)
    requires KnownProvenance(p)
    ensures Leads(st, ProvenanceLines(p), st)
  {
    if p.Some? {
      PlainTexts();
      PlainAppend(PROVENANCE, p.value);
      CommentLeads(st, PROVENANCE + p.value);
    } else {
      LeadsNowhere(st);
    }
  }

  function SegmentField(seg: nat): Option<nat> {
    if seg == KSEG0 then None else Some(seg)
  }

  lemma SegmentLeads(seg: nat)
    requires NamedSegment(seg)
    ensures Leads(START, SegmentLines(seg), START.(segment := SegmentField(seg)))
  {
    if seg == KSEG0 {
      LeadsNowhere(START);
    } else {
      Powers();
      PlainHex(seg, 8, 8);
      PlainLetter('S');
      PlainJoin("S", Hex(seg, 8));
      TwoTokens("S", Hex(seg, 8));
      LeadsOne(START, "S" + " " + Hex(seg, 8), START.(segment := SegmentField(seg)));
    }
  }

  function PairField(pair: Option<nat>): Option<nat> {
    match pair
    case None => None
    case Some(n) => Some(n % (ADDRESSES * ADDRESSES))
  }

  function PairList(pair: Option<nat>): seq<nat> {
    match PairField(pair)
    case None => []
    case Some(n) => [n]
  }

  lemma PairLeads(st: State, pair: Option<nat>)
    requires st.pairs == []
    ensures Leads(st, PairLines(pair), st.(pairs := PairList(pair)))
  {
    if pair.None? {
      LeadsNowhere(st);
    } else {
      var n := pair.value % (ADDRESSES * ADDRESSES);
      Powers();
      PlainHex(n, 16, 16);
      PlainLetter('P');
      PlainJoin("P", Hex(n, 16));
      TwoTokens("P", Hex(n, 16));
      assert st.pairs + [n] == PairList(pair);
      LeadsOne(st, "P" + " " + Hex(n, 16), st.(pairs := PairList(pair)));
    }
  }

  lemma HeadLeads(seg: nat, pair: Option<nat>, p: Option<string>)
    requires NamedSegment(seg) && KnownProvenance(p)
    ensures Leads(START, HeadLines(seg, pair, p), State(PairList(pair), [], SegmentField(seg)))
  {
    var a := START.(segment := SegmentField(seg));
    HeaderLeads(START);
    ProvenanceLeads(START, p);
    LeadsOn(START, [HEADER], START, ProvenanceLines(p), START);
    SegmentLeads(seg);
    LeadsOn(START, [HEADER] + ProvenanceLines(p), START, SegmentLines(seg), a);
    PairLeads(a, pair);
    LeadsOn(START, [HEADER] + ProvenanceLines(p) + SegmentLines(seg), a, PairLines(pair), a.(pairs := PairList(pair)));
  }

  // ----- Round trip --------------------------------------------------------------------------

  lemma SameContract(f: Func)
    requires GoodFunc(f)
    ensures GoodFunc(Canonical(f)) && Phys(Canonical(f).entry) == Phys(f.entry)
  {
    var c := Canonical(f);
    forall i | 0 <= i < |f.ranges|
      ensures InRam(c.ranges[i]) && (Covers(f.ranges[i], f.entry) ==> Covers(c.ranges[i], c.entry))
    {
      assert Phys(c.ranges[i].start) == Phys(f.ranges[i].start);
    }
    var i :| 0 <= i < |f.ranges| && Covers(f.ranges[i], f.entry);
    assert Covers(c.ranges[i], c.entry);
  }

  lemma SameRepresentable(fs: seq<Func>)
    requires Representable(fs)
    ensures Representable(CanonicalAll(fs))
  {
    forall i | 0 <= i < |fs|
      ensures GoodFunc(CanonicalAll(fs)[i]) && Phys(CanonicalAll(fs)[i].entry) == Phys(fs[i].entry)
    {
      SameContract(fs[i]);
    }
  }

  lemma {:induction false} NoNul(ls: seq<string>)
    requires forall l :: l in ls ==> Plain(l)
    ensures '\0' !in Unlines(ls)
    decreases |ls|
  {
    if ls != [] {
      assert ls[0] in ls;
      NoNul(ls[1..]);
    }
  }

  /** Plain lines that lead to a state are what the reader makes of their text. */
  lemma ReadBack(lines: seq<string>, st: State)
    requires Leads(START, lines, st)
    ensures '\0' !in Unlines(lines) && FeedAll(START, Lines(Unlines(lines))) == Some(st)
  {
    NoNul(lines);
    LinesUnlines(lines);
    FeedAllConcat(START, lines, [""]);
    assert Tokens("") == [] && [""][1..] == [];
    FeedPlain(st, "");
    assert FeedAll(st, [""][1..]) == Some(st);
  }

  /** A manifest printed for identities in one segment that the runtime can represent is
      read back: the same pair, entries, checksums and byte extents, in order. */
  lemma ParsePrint(fs: seq<Func>, pair: Option<nat>, p: Option<string>, needPair: bool, expected: Option<nat>, seg: nat)
    requires fs != [] && Representable(fs) && InOneSegment(fs, seg) && NamedSegment(seg) && KnownProvenance(p)
    requires forall i :: 0 <= i < |fs| ==> fs[i].entry < ADDRESSES
    requires (needPair ==> pair.Some?) && (expected.Some? ==> expected.value == seg)
    ensures Print(fs, pair, p).Some?
    ensures Parse(Print(fs, pair, p).value, needPair, expected) == Some(Parsed(PairField(pair), CanonicalAll(fs)))
  {
    var head := State(PairList(pair), [], SegmentField(seg));
    var whole := WithFuncs(head, CanonicalAll(fs));
    HeadLeads(seg, pair, p);
    forall i | 0 <= i < |fs|
      ensures Fits(fs[i])
    {
      assert GoodFunc(fs[i]);
    }
    FuncLinesLead(head, fs, seg);
    LeadsOn(START, HeadLines(seg, pair, p), head, FuncLines(fs), whole);
    ReadBack(HeadLines(seg, pair, p) + FuncLines(fs), whole);
    SameRepresentable(fs);
    FinishHead(head, pair, CanonicalAll(fs), needPair, expected, seg);
  }

  lemma FinishHead(head: State, pair: Option<nat>, fs: seq<Func>, needPair: bool, expected: Option<nat>, seg: nat)
    requires head == State(PairList(pair), [], SegmentField(seg)) && fs != [] && Representable(fs)
    requires (needPair ==> pair.Some?) && (expected.Some? ==> expected.value == seg)
    ensures Finish(WithFuncs(head, fs), needPair, expected) == Some(Parsed(PairField(pair), fs))
  {
    assert WithFuncs(head, fs).funcs == fs;
  }

  // ----- Provenance ------------------------------------------------------------------------------

  function ChopReturn(line: string): string {
    if line != "" && line[|line| - 1] == '\r' then line[..|line| - 1] else line
  }

  predicate Declares(line: string) {
    PROVENANCE <= ChopReturn(line)
  }

  /** The provenance records of a text. */
  function Found(lines: seq<string>): seq<string> {
    if lines == [] then []
    else if Declares(lines[0]) then [ChopReturn(lines[0])[|PROVENANCE|..]] + Found(lines[1..])
    else Found(lines[1..])
  }

  function Provenance(text: string): Option<string> {
    var found := Found(Lines(text));
    if |found| == 1 && KnownProvenance(Some(found[0])) then Some(found[0]) else None
  }

  lemma {:induction false} FoundConcat(a: seq<string>, b: seq<string>)
    ensures Found(a + b) == Found(a) + Found(b)
    decreases |a|
  {
    if a == [] {
      assert a + b == b;
    } else {
      assert (a + b)[1..] == a[1..] + b;
      FoundConcat(a[1..], b);
    }
  }

  lemma {:induction false} FoundNone(lines: seq<string>)
    requires forall l :: l in lines ==> !Declares(l)
    ensures Found(lines) == []
    decreases |lines|
  {
    if lines != [] {
      assert lines[0] in lines;
      FoundNone(lines[1..]);
    }
  }

  /** A record, or nothing at all: not a comment. */
  predicate Record(line: string) {
    line == "" || 'A' <= line[0] <= 'Z'
  }

  lemma RecordSilent(line: string)
    requires Record(line)
    ensures !Declares(line)
  {
    PlainTexts();
    var chopped := ChopReturn(line);
    assert chopped != "" ==> chopped[0] == line[0];
  }

  lemma {:induction false} RangeLinesRecords(ss: seq<Span>)
    ensures forall l :: l in RangeLines(ss) ==> Record(l)
    decreases |ss|
  {
    if ss != [] {
      RangeLinesRecords(ss[..|ss| - 1]);
      assert RangeLine(ss[|ss| - 1])[0] == 'R';
    }
  }

  lemma {:induction false} FuncLinesRecords(fs: seq<Func>)
    ensures forall l :: l in FuncLines(fs) ==> Record(l)
    decreases |fs|
  {
    if fs != [] {
      FuncLinesRecords(fs[..|fs| - 1]);
      RangeLinesRecords(fs[|fs| - 1].ranges);
      assert EntryLine(fs[|fs| - 1])[0] == 'F';
    }
  }

  lemma {:induction false} RecordsSilent(lines: seq<string>)
    requires forall l :: l in lines ==> Record(l)
    ensures Found(lines) == []
  {
    forall l | l in lines
      ensures !Declares(l)
    {
      RecordSilent(l);
    }
    FoundNone(lines);
  }

  lemma FoundHead(p: Option<string>)
    requires KnownProvenance(p)
    ensures Found([HEADER] + ProvenanceLines(p)) == if p.None? then [] else [p.value]
  {
    PlainTexts();
    FoundConcat([HEADER], ProvenanceLines(p));
    FoundFirst(HEADER);
    if p.Some? {
      PlainAppend(PROVENANCE, p.value);
      FoundFirst(PROVENANCE + p.value);
    }
  }

  lemma FoundFirst(line: string)
    requires Plain(line) && |line| > 20
    ensures PROVENANCE <= line ==> Found([line]) == [line[|PROVENANCE|..]]
    ensures line[20] != 'p' ==> Found([line]) == []
  {
    PlainTexts();
    assert ChopReturn(line) == line;
    assert [line][1..] == [];
    assert Found([line][1..]) == [];
  }

  lemma TailRecords(fs: seq<Func>, pair: Option<nat>, seg: nat)
    ensures forall l :: l in SegmentLines(seg) + PairLines(pair) + FuncLines(fs) ==> Record(l)
  {
    FuncLinesRecords(fs);
    if pair.Some? {
      assert PairLines(pair)[0][0] == 'P';
    }
    if seg != KSEG0 {
      assert SegmentLines(seg)[0][0] == 'S';
    }
  }

  lemma FoundWhole(head: seq<string>, tail: seq<string>)
    requires (forall l :: l in head + tail ==> OneLine(l)) && forall l :: l in tail ==> Record(l)
    ensures Found(Lines(Unlines(head + tail))) == Found(head)
  {
    LinesUnlines(head + tail);
    RecordsSilent(tail + [""]);
    FoundConcat(head, tail + [""]);
    assert head + (tail + [""]) == head + tail + [""];
  }

  lemma PrintedPlain(fs: seq<Func>, pair: Option<nat>, p: Option<string>, seg: nat)
    requires NamedSegment(seg) && KnownProvenance(p)
    requires forall i :: 0 <= i < |fs| ==> Fits(fs[i]) && SegmentOf(fs[i].entry) == seg
    ensures forall l :: l in HeadLines(seg, pair, p) + FuncLines(fs) ==> OneLine(l)
  {
    HeadLeads(seg, pair, p);
    FuncLinesLead(State(PairList(pair), [], SegmentField(seg)), fs, seg);
    forall l | l in HeadLines(seg, pair, p) + FuncLines(fs)
      ensures OneLine(l)
    {
      assert Plain(l);
    }
  }

  /** The provenance is read back too, and absent when none was printed. */
  lemma ProvenancePrint(fs: seq<Func>, pair: Option<nat>, p: Option<string>)
    requires Print(fs, pair, p).Some?
    requires forall i :: 0 <= i < |fs| ==> Fits(fs[i])
    ensures Provenance(Print(fs, pair, p).value) == p
  {
    var seg := if fs == [] then KSEG0 else SegmentOf(fs[0].entry);
    var head, tail := [HEADER] + ProvenanceLines(p), SegmentLines(seg) + PairLines(pair) + FuncLines(fs);
    PrintedPlain(fs, pair, p, seg);
    Regroup(seg, pair, p, fs);
    TailRecords(fs, pair, seg);
    FoundWhole(head, tail);
    FoundHead(p);
  }

  lemma Regroup(seg: nat, pair: Option<nat>, p: Option<string>, fs: seq<Func>)
    ensures HeadLines(seg, pair, p) + FuncLines(fs)
            == ([HEADER] + ProvenanceLines(p)) + (SegmentLines(seg) + PairLines(pair) + FuncLines(fs))
  {
    Associate([HEADER] + ProvenanceLines(p), SegmentLines(seg), PairLines(pair), FuncLines(fs));
  }

  lemma Associate(a: seq<string>, b: seq<string>, c: seq<string>, d: seq<string>)
    ensures a + b + c + d == a + (b + c + d)
  {
  }
}
