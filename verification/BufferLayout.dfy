/** When one request's indirect buffer serves a dispatch of another kernel stalled behind the same request
    (lib/queue.cpp:280-287 takes the properties from the request). */
module BufferLayout {
  import opened Gfx
  import opened Registers
  import opened DispatchSetup
  import opened LateBinding

  /** Properties `p` and `q` put the scratch-dependent SGPRs in the same places with the same contents. */
  predicate SameScratchSgprs(gfx: nat, p: nat, q: nat) {
    && Enabled(p, PRIVATE_SEGMENT_BUFFER) == Enabled(q, PRIVATE_SEGMENT_BUFFER)
    && (Enabled(p, PRIVATE_SEGMENT_BUFFER) && gfx >= GFX10_1 ==> Enabled(p, WAVE32) == Enabled(q, WAVE32))
    && Enabled(p, FLAT_SCRATCH_INIT) == Enabled(q, FLAT_SCRATCH_INIT)
    && (Enabled(p, FLAT_SCRATCH_INIT) ==> FlatPos(p) == FlatPos(q))
  }

  lemma SameWrites(gfx: nat, s: Scratch, p: nat, q: nat)
    requires SameScratchSgprs(gfx, p, q)
    ensures SgprWrites(gfx, s, p) == SgprWrites(gfx, s, q)
  {
    hide Enabled, FlatPos, Pair;
  }

  // ----- user SGPRs read back one by one -----

  /** A launch of a kernel with properties `q` and nothing else set. */
  function Bare(q: nat): (d: Launch)
    ensures d.Readable() && d.kernel.props == q
  {
    Launch(Kernel(0, 0, 0, 0, 0, q, 0), 0, (0, 0, 0), 0, [], 0, 0, 0)
  }

  predicate InSrd(props: nat, k: nat) { Enabled(props, PRIVATE_SEGMENT_BUFFER) && k < 4 }

  predicate InFlat(props: nat, k: nat) { Enabled(props, FLAT_SCRATCH_INIT) && FlatPos(props) <= k < FlatPos(props) + 2 }

  /** User SGPR `k` of a bare launch. */
  function Sgpr(gfx: nat, s: Scratch, q: nat, k: nat): nat {
    if InSrd(q, k) then Srd(gfx, s, q)[k] else if InFlat(q, k) then Pair(s.va)[k - FlatPos(q)] else 0
  }

  lemma BarePointers(q: nat, k: nat)
    requires k < |Pointers(Bare(q))|
    ensures Pointers(Bare(q))[k] == 0
  {
    hide Enabled;
  }

  lemma BareSgprs(gfx: nat, s: Scratch, q: nat, k: nat)
    ensures var u := UserSgprs(gfx, Bare(q), s); (if k < |u| then u[k] else 0) == Sgpr(gfx, s, q, k)
  {
    hide Enabled, Pointers, FlatPos, Srd, Pair;
    var d := Bare(q);
    var u := UserSgprs(gfx, d, s);
    FlatPosIs(gfx, d, s);
    var at := |SrdOf(gfx, s, q)|;
    if at <= k < FlatPos(q) {
      BarePointers(q, k - at);
    }
  }

  lemma BaseValue(gfx: nat, s: Scratch, regs: File, k: nat)
    ensures Value(BaseOf(gfx, s, regs), USER_DATA_0 + k) == Value(regs, USER_DATA_0 + k)
  {
    hide StoreAll, Pair, Value;
    Untouched(BaseWrites(gfx, s), regs, USER_DATA_0 + k);
  }

  lemma UsersValue(gfx: nat, s: Scratch, q: nat, k: nat)
    ensures Value(UsersOf(gfx, Bare(q), s, map[]), USER_DATA_0 + k) == Sgpr(gfx, s, q, k)
  {
    hide StoreAll, Store, UserSgprs, Sgpr, PgmWords, RsrcWords;
    var d := Bare(q);
    var r := USER_DATA_0 + k;
    var fixed := StoreAll(FixedWrites(gfx, d), map[]);
    Untouched(FixedWrites(gfx, d), map[], r);
    BareSgprs(gfx, s, q, k);
    var u := UserSgprs(gfx, d, s);
    StoreNone(fixed);
    StoreOne(Write(USER_DATA_0, u), fixed);
    ValueAfter(Write(USER_DATA_0, u), fixed, r);
  }

  lemma EarlyValue(gfx: nat, now: Scratch, q: nat, k: nat)
    ensures Value(Early(gfx, Bare(q), now, map[]), USER_DATA_0 + k) == Sgpr(gfx, now, q, k)
  {
    hide Early, Value, Sgpr, BaseOf, UsersOf;
    EarlyIs(gfx, Bare(q), now, map[]);
    UsersValue(gfx, now, q, k);
    BaseValue(gfx, now, UsersOf(gfx, Bare(q), now, map[]), k);
  }

  lemma LateValue(gfx: nat, was: Scratch, now: Scratch, p: nat, q: nat, k: nat)
    ensures Value(Late(gfx, Bare(q), was, now, p, map[]), USER_DATA_0 + k) ==
            if InFlat(p, k) then Pair(now.va)[k - FlatPos(p)]
            else if InSrd(p, k) then Srd(gfx, now, p)[k]
            else Sgpr(gfx, was, q, k)
  {
    hide Late, Value, Sgpr, BaseOf, UsersOf, Enabled, FlatPos, Srd, Pair, Store, StoreAll;
    var users := UsersOf(gfx, Bare(q), was, map[]);
    var r := USER_DATA_0 + k;
    LateIs(gfx, Bare(q), was, now, p, map[]);
    UsersValue(gfx, was, q, k);
    BaseValue(gfx, now, StoreAll(SgprWrites(gfx, now, p), users), k);
    var wSrd, wFlat := Write(USER_DATA_0, Srd(gfx, now, p)), Write(USER_DATA_0 + FlatPos(p), Pair(now.va));
    var first := if Enabled(p, PRIVATE_SEGMENT_BUFFER) then [wSrd] else [];
    var second := if Enabled(p, FLAT_SCRATCH_INIT) then [wFlat] else [];
    StoreAppend(first, second, users);
    OneValue(first, users, r);
    OneValue(second, StoreAll(first, users), r);
  }

  lemma OneValue(ws: seq<Write>, regs: File, r: nat)
    requires |ws| <= 1
    ensures Value(StoreAll(ws, regs), r) ==
            if ws != [] && Covers(ws[0], r) then ws[0].values[r - ws[0].reg] else Value(regs, r)
  {
    hide Store, Value;
    if ws != [] {
      ValueAfter(ws[0], regs, r);
      StoreOne(ws[0], regs);
      assert ws == [ws[0]];
    }
  }

  // ----- exactly when one buffer serves both -----

  const WAS: Scratch := Scratch(0, 0)
  const NOW: Scratch := Scratch(0x100, 0x2001)

  /** Where the layouts differ, two regions tell late binding from early binding. */
  lemma LayoutsDiffer(gfx: nat, p: nat, q: nat)
    requires !SameScratchSgprs(gfx, p, q)
    ensures Late(gfx, Bare(q), WAS, NOW, p, map[]) != Early(gfx, Bare(q), NOW, map[])
  {
    hide Late, Early, Value, Enabled;
    var k := if Enabled(p, PRIVATE_SEGMENT_BUFFER) && !Enabled(q, PRIVATE_SEGMENT_BUFFER) then 3
             else if !Enabled(p, PRIVATE_SEGMENT_BUFFER) && Enabled(q, PRIVATE_SEGMENT_BUFFER) then 2
             else if Enabled(p, PRIVATE_SEGMENT_BUFFER) && gfx >= GFX10_1 && Enabled(p, WAVE32) != Enabled(q, WAVE32)
               then 3
             else if Enabled(q, FLAT_SCRATCH_INIT) then FlatPos(q)
             else FlatPos(p);
    EarlyValue(gfx, NOW, q, k);
    LateValue(gfx, WAS, NOW, p, q, k);
  }

  /** One buffer serves every launch of the other kernel, over every pair of regions, if and only if the two
      kernels place and describe scratch alike. */
  lemma OneBufferServesIff(gfx: nat, p: nat, q: nat)
    ensures SameScratchSgprs(gfx, p, q) <==>
            forall d: Launch, was, now, regs :: d.Readable() && d.kernel.props == q ==>
              Late(gfx, d, was, now, p, regs) == Early(gfx, d, now, regs)
  {
    hide SameScratchSgprs, Late, Early;
    if SameScratchSgprs(gfx, p, q) {
      forall d: Launch, was, now, regs | d.Readable() && d.kernel.props == q
        ensures Late(gfx, d, was, now, p, regs) == Early(gfx, d, now, regs)
      {
        SameLate(gfx, d, was, now, p, regs);
        LateEqualsEarly(gfx, d, was, now, regs);
      }
    } else {
      LayoutsDiffer(gfx, p, q);
    }
  }

  lemma SameLate(gfx: nat, d: Launch, was: Scratch, now: Scratch, p: nat, regs: File)
    requires d.Readable() && SameScratchSgprs(gfx, p, d.kernel.props)
    ensures Late(gfx, d, was, now, p, regs) == Late(gfx, d, was, now, d.kernel.props, regs)
  {
    hide SameScratchSgprs, StoreAll, SetupWrites, SgprWrites, BaseWrites;
    SameWrites(gfx, now, p, d.kernel.props);
  }
}
