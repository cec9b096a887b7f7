/** Words of which a kernel capture loses an address it was given. */
module LostWords {
  import opened LostEntry
  import opened Options
  import opened Walk
  import opened WalkedImage
  import JumpTable
  import Mips
  import Ownership

  // ----- The words --------------------------------------------------------------------------------

  /** Entry 0 calls 48 and 56.  Up to 56 its walk comes by 44 to 48.  With 56 inside, it comes
      by 56 to 40 first, marks 44 as a delay slot and does not go on from there.  The words
      not named here lie in delay slots and may be anything. */
  predicate Loses(words: seq<Mips.Word>) {
    && |words| == 18
    && words[0] == 0x0C00_000C                      // jal 48
    && words[2] == 0x0C00_000E                      // jal 56
    && words[4] == 0x1080_0009                      // beq $a0, $zero, 56
    && words[6] == words[7] == 0                    // nop
    && words[8] == 0x0800_000B                      // j 44
    && words[10] == 0x0800_0010 && words[11] == 0   // j 64; nop
    && words[12] == 0x03E0_0008                     // jr $ra
    && words[14] == 0x0800_000A                     // j 40
    && words[16] == 0x03E0_0008                     // jr $ra
  }

  /** The words at address 0, as one producer. */
  function Lost(words: seq<Mips.Word>): Capture {
    Capture(Mips.Stored(words), 0, 72, [], false, (t: nat) => false)
  }

  /** What a walk needs to know of them. */
  ghost predicate Spells(code: Walk.Image) {
    && code.lo == 0 && code.hi == 72 && (forall a :: code.owned(a))
    && code.valid(48) && code.valid(56) && code.callable(0, 48) == Local && code.callable(8, 56) == Local
    && code.word(0) == Some(Call(48)) && code.word(8) == Some(Call(56)) && code.word(16) == Some(Branch(56))
    && code.word(24) == Some(Kind.Normal) && code.word(28) == Some(Kind.Normal) && code.word(32) == Some(Jump(44))
    && code.word(40) == Some(Jump(64)) && code.word(44) == Some(Kind.Normal) && code.word(48) == Some(Return)
    && code.word(56) == Some(Jump(40)) && code.word(64) == Some(Return)
  }

  lemma LostWord(words: seq<Mips.Word>, k: nat)
    requires k < |words|
    ensures Words(Lost(words))(4 * k) == Some(Mips.Decode(words[k]))
  {
    Mips.CapturedStored(words, 0, k);
  }

  /** The word at `pc` classifies so, and is not a register jump. */
  ghost predicate Classifies(pc: nat, w: Mips.Word, kind: Mips.Kind, target: int) {
    Mips.Classify(pc, Mips.Decode(w)) == (kind, target) && kind != Mips.Jr && kind != Mips.Jalr
  }

  function Plain(kind: Mips.Kind, target: nat): Walk.Kind
    requires kind != Mips.Jr && kind != Mips.Jalr
  {
    match kind
    case Normal => Walk.Normal
    case Branch => Walk.Branch(target)
    case BranchNever => Walk.BranchNever
    case BranchNeverLikely => Walk.BranchNeverLikely
    case J => Jump(target)
    case Jal => Call(target)
    case JrRa => Return
  }

  /** The code has these words, register jumps aside. */
  ghost predicate Reads(code: Walk.Image, words: seq<Mips.Word>) {
    forall k, pc, kind, target: nat ::
      0 <= k < |words| && pc == 4 * k && Classifies(pc, words[k], kind, target) ==> code.word(pc) == Some(Plain(kind, target))
  }

  lemma ReadAt(code: Walk.Image, words: seq<Mips.Word>, k: nat, pc: nat, kind: Mips.Kind, target: nat)
    requires Reads(code, words) && k < |words| && pc == 4 * k && Classifies(pc, words[k], kind, target)
    ensures code.word(pc) == Some(Plain(kind, target))
  {
  }

  lemma LostReads(words: seq<Mips.Word>, iterate: JumpTable.Iteration, entry: nat, cap: nat)
    ensures Reads(CodeAt(Lost(words), iterate, entry, cap), words)
  {
    forall k, pc, kind, target: nat | 0 <= k < |words| && pc == 4 * k && Classifies(pc, words[k], kind, target)
      ensures CodeAt(Lost(words), iterate, entry, cap).word(pc) == Some(Plain(kind, target))
    {
      LostWord(words, k);
    }
  }

  lemma CallsClassify()
    ensures Classifies(0, 0x0C00_000C, Mips.Jal, 48) && Classifies(8, 0x0C00_000E, Mips.Jal, 56)
    ensures Classifies(16, 0x1080_0009, Mips.Branch, 56)
  {
  }

  lemma JumpsClassify()
    ensures Classifies(32, 0x0800_000B, Mips.J, 44) && Classifies(40, 0x0800_0010, Mips.J, 64)
    ensures Classifies(56, 0x0800_000A, Mips.J, 40)
  {
  }

  lemma OthersClassify(pc: nat)
    ensures Classifies(pc, 0, Mips.Normal, 0) && Classifies(pc, 0x03E0_0008, Mips.JrRa, 0)
  {
  }

  lemma ReadsCalls(code: Walk.Image, words: seq<Mips.Word>)
    requires Loses(words) && Reads(code, words)
    ensures code.word(0) == Some(Call(48)) && code.word(8) == Some(Call(56)) && code.word(16) == Some(Walk.Branch(56))
  {
    CallsClassify();
    ReadAt(code, words, 0, 0, Mips.Jal, 48);
    ReadAt(code, words, 2, 8, Mips.Jal, 56);
    ReadAt(code, words, 4, 16, Mips.Branch, 56);
  }

  lemma ReadsJumps(code: Walk.Image, words: seq<Mips.Word>)
    requires Loses(words) && Reads(code, words)
    ensures code.word(32) == Some(Jump(44)) && code.word(40) == Some(Jump(64)) && code.word(56) == Some(Jump(40))
  {
    JumpsClassify();
    ReadAt(code, words, 8, 32, Mips.J, 44);
    ReadAt(code, words, 10, 40, Mips.J, 64);
    ReadAt(code, words, 14, 56, Mips.J, 40);
  }

  lemma ReadsOther(code: Walk.Image, words: seq<Mips.Word>, k: nat)
    requires Reads(code, words) && k < |words|
    ensures words[k] == 0 ==> code.word(4 * k) == Some(Walk.Normal)
    ensures words[k] == 0x03E0_0008 ==> code.word(4 * k) == Some(Return)
  {
    var pc := 4 * k;
    OthersClassify(pc);
    if words[k] == 0 {
      ReadAt(code, words, k, pc, Mips.Normal, 0);
    } else if words[k] == 0x03E0_0008 {
      ReadAt(code, words, k, pc, Mips.JrRa, 0);
    }
  }

  lemma ReadsAll(code: Walk.Image, words: seq<Mips.Word>)
    requires Loses(words) && Reads(code, words) && code.lo == 0 && code.hi == 72 && forall a :: code.owned(a)
    requires code.valid(48) && code.valid(56) && code.callable(0, 48) == Local && code.callable(8, 56) == Local
    ensures Spells(code)
  {
    ReadsCalls(code, words);
    ReadsJumps(code, words);
    ReadsOther(code, words, 6);
    ReadsOther(code, words, 7);
    ReadsOther(code, words, 11);
    ReadsOther(code, words, 12);
    ReadsOther(code, words, 16);
  }

  lemma LostSpells(words: seq<Mips.Word>, iterate: JumpTable.Iteration, entry: nat, cap: nat)
    requires Loses(words)
    ensures Spells(CodeAt(Lost(words), iterate, entry, cap))
  {
    LostReads(words, iterate, entry, cap);
    LostCallable(words);
    ReadsAll(CodeAt(Lost(words), iterate, entry, cap), words);
  }

  lemma LostCallable(words: seq<Mips.Word>)
    requires Loses(words)
    ensures ValidWord(Lost(words), 48) && ValidWord(Lost(words), 56)
    ensures Callable(Lost(words), 0, 48) == Local && Callable(Lost(words), 8, 56) == Local
  {
    LostWord(words, 12);
    LostWord(words, 14);
  }

  // ----- The walks over them -----------------------------------------------------------------------

  /** The hints about other functions: these calls, and these branches past the cap. */
  ghost predicate Tells(hints: set<Hint>, calls: set<nat>, past: set<nat>) {
    && (forall t :: CallsTo(t) in hints <==> t in calls) && (forall t :: Indirectly(t) !in hints)
    && forall t :: Past(t) in hints <==> t in past
  }

  /** The walk takes up a word of this kind next. */
  ghost predicate Meets(s: Scope, p: Progress, pc: nat, k: Walk.Kind) {
    && p.work != [] && p.work[0] == pc && pc !in p.visited && InFunction(s, pc) && s.image.word(pc) == Some(k)
    && (HasDelay(k) ==> InFunction(s, pc + 4))
  }

  /** `finish` gives the end of the walk from any point of it. */
  ghost predicate Ends(s: Scope, finish: Progress -> Progress) {
    && (forall p: Progress {:trigger Next(s, p)} :: p.work != [] ==> finish(p) == finish(Next(s, p)))
    && forall visited, hints :: finish(Progress([], visited, hints)) == Progress([], visited, hints)
  }

  /** `n` is where the walk stands after its first word, with `marked` visited and `follow`
      queued. */
  ghost predicate Goes(finish: Progress -> Progress, p: Progress, marked: set<nat>, follow: seq<nat>, n: Progress)
    requires p.work != []
  {
    n.work == p.work[1..] + follow && n.visited == p.visited + marked && finish(p) == finish(n)
  }

  lemma InsideOne(s: Scope, x: nat)
    ensures Inside(s, [x]) == if InFunction(s, x) then [x] else []
  {
    assert [x][1..] == [];
  }

  lemma InsideTwo(s: Scope, x: nat, y: nat)
    requires InFunction(s, x)
    ensures Inside(s, [x, y]) == if InFunction(s, y) then [x, y] else [x]
  {
    InsideOne(s, y);
    assert [x, y][1..] == [y];
  }

  lemma MeetsCall(s: Scope, finish: Progress -> Progress, p: Progress, pc: nat, t: nat, calls: set<nat>, past: set<nat>)
    returns (n: Progress)
    requires Ends(s, finish) && Meets(s, p, pc, Call(t)) && InFunction(s, pc + 8) && Tells(p.hints, calls, past)
    requires InRegion(s.image, t) && s.image.valid(t) && s.image.callable(pc, t) == Local
    ensures Goes(finish, p, {pc, pc + 4}, [pc + 8], n) && Tells(n.hints, calls + {t}, past)
  {
    n := Next(s, p);
    InsideOne(s, pc + 8);
  }

  lemma MeetsNormal(s: Scope, finish: Progress -> Progress, p: Progress, pc: nat, calls: set<nat>, past: set<nat>)
    returns (n: Progress)
    requires Ends(s, finish) && Meets(s, p, pc, Walk.Normal) && Tells(p.hints, calls, past)
    ensures Goes(finish, p, {pc}, if InFunction(s, pc + 4) then [pc + 4] else [], n) && Tells(n.hints, calls, past)
  {
    n := Next(s, p);
    InsideOne(s, pc + 4);
  }

  lemma MeetsJump(s: Scope, finish: Progress -> Progress, p: Progress, pc: nat, t: nat, calls: set<nat>, past: set<nat>)
    returns (n: Progress)
    requires Ends(s, finish) && Meets(s, p, pc, Jump(t)) && InFunction(s, t) && Tells(p.hints, calls, past)
    ensures Goes(finish, p, {pc, pc + 4}, [t], n) && Tells(n.hints, calls, past)
  {
    n := Next(s, p);
    InsideOne(s, t);
  }

  lemma MeetsBranch(s: Scope, finish: Progress -> Progress, p: Progress, pc: nat, t: nat, calls: set<nat>, past: set<nat>)
    returns (n: Progress)
    requires Ends(s, finish) && Meets(s, p, pc, Walk.Branch(t)) && InFunction(s, pc + 8) && Tells(p.hints, calls, past)
    requires InRegion(s.image, t) && (InFunction(s, t) || s.cap <= t)
    ensures Goes(finish, p, {pc, pc + 4}, if InFunction(s, t) then [pc + 8, t] else [pc + 8], n)
    ensures Tells(n.hints, calls, if InFunction(s, t) then past else past + {t})
  {
    n := Next(s, p);
    InsideTwo(s, pc + 8, t);
  }

  lemma MeetsReturn(s: Scope, finish: Progress -> Progress, p: Progress, pc: nat, calls: set<nat>, past: set<nat>)
    returns (n: Progress)
    requires Ends(s, finish) && Meets(s, p, pc, Return) && Tells(p.hints, calls, past)
    ensures Goes(finish, p, {pc, pc + 4}, [], n) && Tells(n.hints, calls, past)
  {
    n := Next(s, p);
  }

  lemma MeetsVisited(s: Scope, finish: Progress -> Progress, p: Progress, pc: nat) returns (n: Progress)
    requires Ends(s, finish) && p.work != [] && p.work[0] == pc && pc in p.visited
    ensures Goes(finish, p, {}, [], n) && n.hints == p.hints
  {
    n := Next(s, p);
  }

  /** Every walk from the entry begins with the two calls. */
  lemma WalkCalls(s: Scope, finish: Progress -> Progress) returns (n: Progress)
    requires Ends(s, finish) && Spells(s.image) && s.entry == 0 && 48 <= s.cap <= 72
    ensures n.work == [16] && n.visited == {0, 4, 8, 12} && Tells(n.hints, {48, 56}, {})
    ensures finish(n) == finish(Progress([0], {}, {}))
  {
    var p := Progress([0], {}, {});
    p := MeetsCall(s, finish, p, 0, 48, {}, {});
    n := MeetsCall(s, finish, p, 8, 56, {48}, {});
  }

  /** Short of 56 the branch leads past the cap, ... */
  lemma WalkPast(s: Scope, finish: Progress -> Progress) returns (n: Progress)
    requires Ends(s, finish) && Spells(s.image) && s.entry == 0 && 48 <= s.cap <= 56
    ensures n.work == [28] && n.visited == {0, 4, 8, 12, 16, 20, 24} && Tells(n.hints, {48, 56}, {56})
    ensures finish(n) == finish(Progress([0], {}, {}))
  {
    var p := WalkCalls(s, finish);
    p := MeetsBranch(s, finish, p, 16, 56, {48, 56}, {});
    n := MeetsNormal(s, finish, p, 24, {48, 56}, {56});
  }

  /** ... and it goes on to 44. */
  lemma WalkShort(s: Scope, finish: Progress -> Progress) returns (n: Progress)
    requires Ends(s, finish) && Spells(s.image) && s.entry == 0 && 48 <= s.cap <= 56
    ensures n.work == [44] && n.visited == {0, 4, 8, 12, 16, 20, 24, 28, 32, 36} && Tells(n.hints, {48, 56}, {56})
    ensures finish(n) == finish(Progress([0], {}, {}))
  {
    var p := WalkPast(s, finish);
    p := MeetsNormal(s, finish, p, 28, {48, 56}, {56});
    n := MeetsJump(s, finish, p, 32, 44, {48, 56}, {56});
  }

  /** Up to 48 that is all. */
  lemma WalkTo48(s: Scope, finish: Progress -> Progress)
    requires Ends(s, finish) && Spells(s.image) && s.entry == 0 && s.cap == 48
    ensures Tells(finish(Progress([0], {}, {})).hints, {48, 56}, {56})
  {
    var p := WalkShort(s, finish);
    p := MeetsNormal(s, finish, p, 44, {48, 56}, {56});
    assert p == Progress([], p.visited, p.hints);
  }

  /** Up to 56 it comes to 48. */
  lemma WalkTo56(s: Scope, finish: Progress -> Progress)
    requires Ends(s, finish) && Spells(s.image) && s.entry == 0 && s.cap == 56
    ensures 48 in finish(Progress([0], {}, {})).visited
  {
    var p := WalkShort(s, finish);
    p := MeetsNormal(s, finish, p, 44, {48, 56}, {56});
    p := MeetsReturn(s, finish, p, 48, {48, 56}, {56});
    assert p == Progress([], p.visited, p.hints);
  }

  /** Up to the end it takes the branch too, ... */
  lemma WalkBranches(s: Scope, finish: Progress -> Progress) returns (n: Progress)
    requires Ends(s, finish) && Spells(s.image) && s.entry == 0 && s.cap == 72
    ensures n.work == [28, 40] && n.visited == {0, 4, 8, 12, 16, 20, 24, 56, 60} && Tells(n.hints, {48, 56}, {})
    ensures finish(n) == finish(Progress([0], {}, {}))
  {
    var p := WalkCalls(s, finish);
    p := MeetsBranch(s, finish, p, 16, 56, {48, 56}, {});
    p := MeetsNormal(s, finish, p, 24, {48, 56}, {});
    n := MeetsJump(s, finish, p, 56, 40, {48, 56}, {});
  }

  /** ... comes to 40 before 44, ... */
  lemma WalkMeets40(s: Scope, finish: Progress -> Progress) returns (n: Progress)
    requires Ends(s, finish) && Spells(s.image) && s.entry == 0 && s.cap == 72
    ensures n.work == [64, 44] && n.visited == {0, 4, 8, 12, 16, 20, 24, 28, 32, 36, 40, 44, 56, 60}
    ensures Tells(n.hints, {48, 56}, {}) && finish(n) == finish(Progress([0], {}, {}))
  {
    var p := WalkBranches(s, finish);
    p := MeetsNormal(s, finish, p, 28, {48, 56}, {});
    p := MeetsJump(s, finish, p, 40, 64, {48, 56}, {});
    n := MeetsJump(s, finish, p, 32, 44, {48, 56}, {});
  }

  /** ... and so not to 48. */
  lemma WalkTo72(s: Scope, finish: Progress -> Progress)
    requires Ends(s, finish) && Spells(s.image) && s.entry == 0 && s.cap == 72
    ensures var w := finish(Progress([0], {}, {}));
            Tells(w.hints, {48, 56}, {}) && 56 in w.visited && 48 !in w.visited
  {
    var p := WalkMeets40(s, finish);
    p := MeetsReturn(s, finish, p, 64, {48, 56}, {});
    p := MeetsVisited(s, finish, p, 44);
    assert p == Progress([], p.visited, p.hints);
  }

  /** From 48 there is only the return. */
  lemma WalkFrom48(s: Scope, finish: Progress -> Progress)
    requires Ends(s, finish) && Spells(s.image) && s.entry == 48 && s.cap == 72
    ensures Tells(finish(Progress([48], {}, {})).hints, {}, {})
  {
    var p := Progress([48], {}, {});
    p := MeetsReturn(s, finish, p, 48, {}, {});
    assert p == Progress([], p.visited, p.hints);
  }

  // ----- The image that they give --------------------------------------------------------------------

  /** The end of the walk as a function of where it stands. */
  lemma WalkEnds(s: Scope) returns (finish: Progress -> Progress)
    ensures Ends(s, finish) && Walked(s) == finish(Progress([s.entry], {}, {}))
  {
    finish := (p: Progress) => Finished(s, p);
    forall p: Progress | p.work != []
      ensures finish(p) == finish(Next(s, p))
    {
      FinishedNext(s, p, Next(s, p));
    }
  }

  lemma TellsTrace(p: Progress, calls: set<nat>, past: set<nat>)
    requires Tells(p.hints, calls, past)
    ensures TraceOf(p) == Ownership.Trace(p.visited, calls, {}, past)
  {
    forall t
      ensures t in TraceOf(p).calls <==> t in calls
      ensures t !in TraceOf(p).indirect && (t in TraceOf(p).forward <==> t in past)
    {
      assert CallsTo(t).target == t && Past(t).target == t;
    }
    assert TraceOf(p).calls == calls && TraceOf(p).indirect == {} && TraceOf(p).forward == past;
  }

  /** What the four walks show. */
  lemma TraceTo48(s: Scope)
    requires Spells(s.image) && s.entry == 0 && s.cap == 48
    ensures ShowsCalls(TraceOf(Walked(s)))
  {
    var finish := WalkEnds(s);
    WalkTo48(s, finish);
    TellsCalls(Walked(s), {56});
  }

  lemma TraceTo56(s: Scope)
    requires Spells(s.image) && s.entry == 0 && s.cap == 56
    ensures 48 in TraceOf(Walked(s)).visited
  {
    var finish := WalkEnds(s);
    WalkTo56(s, finish);
  }

  lemma TraceTo72(s: Scope)
    requires Spells(s.image) && s.entry == 0 && s.cap == 72
    ensures var w := TraceOf(Walked(s)); ShowsCalls(w) && 56 in w.visited && 48 !in w.visited
  {
    var finish := WalkEnds(s);
    WalkTo72(s, finish);
    TellsCalls(Walked(s), {});
  }

  lemma TraceFrom48(s: Scope)
    requires Spells(s.image) && s.entry == 48 && s.cap == 72
    ensures ShowsNothing(TraceOf(Walked(s)))
  {
    var finish := WalkEnds(s);
    WalkFrom48(s, finish);
    TellsTrace(Walked(s), {}, {});
  }

  lemma TellsCalls(p: Progress, past: set<nat>)
    requires Tells(p.hints, {48, 56}, past) && forall t :: t in past ==> IsCalled(t)
    ensures ShowsCalls(TraceOf(p))
  {
    TellsTrace(p, {48, 56}, past);
  }

  lemma LostImage(words: seq<Mips.Word>, iterate: JumpTable.Iteration, accepts: (nat, nat, bool) -> bool, placed: nat -> bool)
    requires Loses(words)
    ensures LosesIt(ImageOf(Lost(words), iterate, accepts, placed))
  {
    var c := Lost(words);
    LostSpells(words, iterate, 0, 48);
    LostSpells(words, iterate, 0, 56);
    LostSpells(words, iterate, 0, 72);
    LostSpells(words, iterate, 48, 72);
    TraceTo48(ScopeAt(c, iterate, 0, 48));
    TraceTo56(ScopeAt(c, iterate, 0, 56));
    TraceTo72(ScopeAt(c, iterate, 0, 72));
    TraceFrom48(ScopeAt(c, iterate, 48, 72));
    LostCallable(words);
  }

  /** There are such words. */
  lemma LosingWords()
    ensures exists words :: Loses(words)
  {
    var words: seq<Mips.Word> := [0x0C00_000C, 0, 0x0C00_000E, 0, 0x1080_0009, 0, 0, 0, 0x0800_000B, 0, 0x0800_0010, 0,
                                  0x03E0_0008, 0, 0x0800_000A, 0, 0x03E0_0008, 0];
    assert Loses(words);
  }

  /** Every capture of them makes the run that loses 48, in whatever order sets are iterated
      and whatever branches past a cap are accepted. */
  lemma LostRunExists(words: seq<Mips.Word>, iterate: JumpTable.Iteration, accepts: (nat, nat, bool) -> bool,
                      placed: nat -> bool)
    requires Loses(words)
    ensures exists included, first, second, zero, derived ::
              LostRun(ImageOf(Lost(words), iterate, accepts, placed), included, first, second, zero, derived)
  {
    LostImage(words, iterate, accepts, placed);
    RunExists(ImageOf(Lost(words), iterate, accepts, placed));
  }
}
