/** Binding scratch late equals binding it early: the registers after a dispatch's setup with any stale scratch and
    then the handler's indirect buffer are those of a setup with the fresh scratch. */
module LateBinding {
  import opened Gfx
  import opened Packets
  import opened Util
  import opened Registers
  import opened DispatchSetup

  /** The handler's buffer is whole packets filling exactly its 20 dwords, whatever it held before, and running it
      makes exactly the scratch writes. */
  lemma IbRuns(ib: seq<nat>, gfx: nat, s: Scratch, props: nat, regs: File)
    requires IsIb(ib, gfx, s, props)
    ensures Parse(PM4, ib).Some? && Run(ib, regs) == StoreAll(IbWrites(gfx, s, props), regs)
  {
    hide IbWrites, Encode, AllEncodable, Header, Parse, Run, StoreAll;
    var ws := IbWrites(gfx, s, props);
    var n := |Encode(ws)|;
    assert ib == ib[..n] + ib[n..];
    NopTail(ws, ib[n..], regs);
  }

  // ----- the parts of the register file that scratch touches -----

  function BaseOf(gfx: nat, s: Scratch, regs: File): File { StoreAll(BaseWrites(gfx, s), regs) }

  lemma BaseIs(gfx: nat, s: Scratch, regs: File)
    ensures BaseOf(gfx, s, regs) ==
            Store(Write(TMPRING_SIZE, [s.tmpring]),
                  if gfx >= GFX9 then Store(Write(SCRATCH_BASE_LO, Pair(s.va / 0x100)), regs) else regs)
  {
    hide Store, Pair;
    var b, t := Write(SCRATCH_BASE_LO, Pair(s.va / 0x100)), Write(TMPRING_SIZE, [s.tmpring]);
    StoreOne(t, regs);
    if gfx >= GFX9 {
      StoreAppend([b], [t], regs);
      StoreOne(b, regs);
      StoreOne(t, Store(b, regs));
    } else {
      assert [] + [t] == [t];
    }
  }

  lemma StoreOne(w: Write, regs: File)
    ensures StoreAll([w], regs) == Store(w, regs)
  {
    hide Store;
    assert [w][..|[w]| - 1] == [];
  }

  /** Scratch base registers set twice hold the second value. */
  lemma BaseOverwrites(gfx: nat, s: Scratch, s': Scratch, regs: File)
    ensures BaseOf(gfx, s', BaseOf(gfx, s, regs)) == BaseOf(gfx, s', regs)
  {
    hide Store, StoreAll, BaseOf, BaseWrites;
    var b, t := Write(SCRATCH_BASE_LO, Pair(s.va / 0x100)), Write(TMPRING_SIZE, [s.tmpring]);
    var b', t' := Write(SCRATCH_BASE_LO, Pair(s'.va / 0x100)), Write(TMPRING_SIZE, [s'.tmpring]);
    BaseIs(gfx, s, regs);
    BaseIs(gfx, s', regs);
    BaseIs(gfx, s', BaseOf(gfx, s, regs));
    if gfx >= GFX9 {
      Commute(t, b', Store(b, regs));
      Overwrite(b, b', regs);
      Overwrite(t, t', Store(b', regs));
    } else {
      Overwrite(t, t', regs);
    }
  }

  /** A write elsewhere can be moved before the base registers. */
  lemma BaseCommutes(gfx: nat, s: Scratch, w: Write, regs: File)
    requires USER_DATA_0 <= w.reg
    ensures Store(w, BaseOf(gfx, s, regs)) == BaseOf(gfx, s, Store(w, regs))
  {
    hide Store, StoreAll, BaseOf, BaseWrites;
    var b, t := Write(SCRATCH_BASE_LO, Pair(s.va / 0x100)), Write(TMPRING_SIZE, [s.tmpring]);
    BaseIs(gfx, s, regs);
    BaseIs(gfx, s, Store(w, regs));
    if gfx >= GFX9 {
      Commute(t, w, Store(b, regs));
      Commute(b, w, regs);
    } else {
      Commute(t, w, regs);
    }
  }

  // ----- the user SGPRs -----

  function SrdOf(gfx: nat, s: Scratch, props: nat): seq<nat> {
    When(Enabled(props, PRIVATE_SEGMENT_BUFFER), Srd(gfx, s, props))
  }

  function FlatOf(s: Scratch, props: nat): seq<nat> { When(Enabled(props, FLAT_SCRATCH_INIT), Pair(s.va)) }

  /** How many SGPRs the properties put up to the end of the flat scratch address. */
  function Room(props: nat): nat { FlatPos(props) + if Enabled(props, FLAT_SCRATCH_INIT) then 2 else 0 }

  /** The SGPR writes of the indirect buffer, made inside a block of user SGPRs already there. */
  function Rebind(gfx: nat, s: Scratch, props: nat, u: seq<nat>): (r: seq<nat>)
    requires Room(props) <= |u|
    ensures |r| == |u|
  {
    Patch(Patch(u, 0, SrdOf(gfx, s, props)), FlatPos(props), FlatOf(s, props))
  }

  lemma FlatPosIs(gfx: nat, d: Launch, s: Scratch)
    ensures FlatPos(d.kernel.props) == |SrdOf(gfx, s, d.kernel.props)| + |Pointers(d)|
  {
    hide Enabled, Srd, Pair;
  }

  lemma PatchBoth(a: seq<nat>, a': seq<nat>, p: seq<nat>, f: seq<nat>, f': seq<nat>, rest: seq<nat>)
    requires |a| == |a'| && |f| == |f'|
    ensures Patch(Patch(a + p + f + rest, 0, a'), |a| + |p|, f') == a' + p + f' + rest
  {
    var u := a + p + f + rest;
    assert u[|a|..] == p + f + rest;
    assert Patch(u, 0, a') == a' + p + f + rest;
    assert (a' + p + f + rest)[|a| + |p| + |f|..] == rest;
    assert (a' + p + f + rest)[..|a| + |p|] == a' + p;
  }

  /** The user SGPRs with the new scratch are those with the old, rebound. */
  lemma SgprsRebound(gfx: nat, d: Launch, was: Scratch, now: Scratch)
    requires d.Readable()
    ensures |UserSgprs(gfx, d, was)| == |UserSgprs(gfx, d, now)| && Room(d.kernel.props) <= |UserSgprs(gfx, d, was)|
    ensures Rebind(gfx, now, d.kernel.props, UserSgprs(gfx, d, was)) == UserSgprs(gfx, d, now)
  {
    hide Srd, Pair, Enabled, When, Pointers, FlatPos, Patch, PrivateSize, Preloaded;
    var props := d.kernel.props;
    SgprLayout(gfx, d, was);
    SgprLayout(gfx, d, now);
    FlatPosIs(gfx, d, was);
    FlatPosIs(gfx, d, now);
    var a, p, f := SrdOf(gfx, was, props), Pointers(d), FlatOf(was, props);
    var a', f' := SrdOf(gfx, now, props), FlatOf(now, props);
    var z := PrivateSize(d);
    var x := Preloaded(d, MaxUserSgprs(gfx) - |a + p + f + z|);
    Assoc(a + p + f, z, x);
    Assoc(a' + p + f', z, x);
    PatchBoth(a, a', p, f, f', z + x);
  }

  lemma PatchNone(u: seq<nat>, at: nat)
    requires at <= |u|
    ensures Patch(u, at, []) == u
  {
  }

  lemma WritesRebind(gfx: nat, s: Scratch, props: nat, u: seq<nat>, regs: File)
    requires Room(props) <= |u|
    ensures StoreAll(SgprWrites(gfx, s, props), Store(Write(USER_DATA_0, u), regs)) ==
            Store(Write(USER_DATA_0, Rebind(gfx, s, props, u)), regs)
  {
    hide Store, Srd, Pair, Enabled, FlatPos, Patch, StoreAll;
    var start := Store(Write(USER_DATA_0, u), regs);
    var v := Patch(u, 0, SrdOf(gfx, s, props));
    var wSrd, wFlat := Write(USER_DATA_0, Srd(gfx, s, props)), Write(USER_DATA_0 + FlatPos(props), Pair(s.va));
    PatchNone(u, 0);
    PatchNone(v, FlatPos(props));
    WriteInside(USER_DATA_0, u, 0, SrdOf(gfx, s, props), regs);
    WriteInside(USER_DATA_0, v, FlatPos(props), FlatOf(s, props), regs);
    var first := if Enabled(props, PRIVATE_SEGMENT_BUFFER) then [wSrd] else [];
    var second := if Enabled(props, FLAT_SCRATCH_INIT) then [wFlat] else [];
    StoreAppend(first, second, start);
    StoreNone(start);
    StoreOne(wSrd, start);
    StoreNone(Store(Write(USER_DATA_0, v), regs));
    StoreOne(wFlat, Store(Write(USER_DATA_0, v), regs));
  }

  lemma StoreNone(regs: File)
    ensures StoreAll([], regs) == regs
  {
  }

  // ----- the theorem -----

  /** The register file a dispatch runs with when its setup names `now` from the start. */
  function Early(gfx: nat, d: Launch, now: Scratch, regs: File): File
    requires d.Readable()
  {
    StoreAll(SetupWrites(gfx, d, now), regs)
  }

  /** The one it runs with when its setup names `was` and the handler's buffer for `props` follows. */
  function Late(gfx: nat, d: Launch, was: Scratch, now: Scratch, props: nat, regs: File): File
    requires d.Readable()
  {
    StoreAll(IbWrites(gfx, now, props), StoreAll(SetupWrites(gfx, d, was), regs))
  }

  /** The SGPR writes of the buffer can be moved before its base registers. */
  lemma SgprsCommute(gfx: nat, s: Scratch, props: nat, regs: File)
    ensures StoreAll(SgprWrites(gfx, s, props), BaseOf(gfx, s, regs)) ==
            BaseOf(gfx, s, StoreAll(SgprWrites(gfx, s, props), regs))
  {
    hide Store, StoreAll, BaseOf, BaseWrites, Srd, Pair, Enabled, FlatPos;
    var wSrd, wFlat := Write(USER_DATA_0, Srd(gfx, s, props)), Write(USER_DATA_0 + FlatPos(props), Pair(s.va));
    var first := if Enabled(props, PRIVATE_SEGMENT_BUFFER) then [wSrd] else [];
    var second := if Enabled(props, FLAT_SCRATCH_INIT) then [wFlat] else [];
    StoreAppend(first, second, regs);
    StoreAppend(first, second, BaseOf(gfx, s, regs));
    OneCommutes(gfx, s, first, regs);
    OneCommutes(gfx, s, second, StoreAll(first, regs));
  }

  lemma OneCommutes(gfx: nat, s: Scratch, ws: seq<Write>, regs: File)
    requires |ws| <= 1 && forall i :: 0 <= i < |ws| ==> USER_DATA_0 <= ws[i].reg
    ensures StoreAll(ws, BaseOf(gfx, s, regs)) == BaseOf(gfx, s, StoreAll(ws, regs))
  {
    hide Store, BaseOf;
    if ws != [] {
      BaseCommutes(gfx, s, ws[0], regs);
      assert ws == [ws[0]];
      StoreOne(ws[0], regs);
      StoreOne(ws[0], BaseOf(gfx, s, regs));
    }
  }

  /** The user SGPRs a dispatch sets over what it sets first. */
  function UsersOf(gfx: nat, d: Launch, s: Scratch, regs: File): File
    requires d.Readable()
  {
    StoreAll(UserWrites(gfx, d, s), StoreAll(FixedWrites(gfx, d), regs))
  }

  lemma EarlyIs(gfx: nat, d: Launch, now: Scratch, regs: File)
    requires d.Readable()
    ensures Early(gfx, d, now, regs) == BaseOf(gfx, now, UsersOf(gfx, d, now, regs))
  {
    hide StoreAll, FixedWrites, UserWrites, BaseWrites;
    StoreAppend(FixedWrites(gfx, d) + UserWrites(gfx, d, now), BaseWrites(gfx, now), regs);
    StoreAppend(FixedWrites(gfx, d), UserWrites(gfx, d, now), regs);
  }

  /** Late in one step: the SGPR writes of the buffer land in the dispatch's user SGPRs, and only the new base
      registers count. */
  lemma LateIs(gfx: nat, d: Launch, was: Scratch, now: Scratch, props: nat, regs: File)
    requires d.Readable()
    ensures Late(gfx, d, was, now, props, regs) ==
            BaseOf(gfx, now, StoreAll(SgprWrites(gfx, now, props), UsersOf(gfx, d, was, regs)))
  {
    hide StoreAll, SetupWrites, UsersOf, BaseWrites, SgprWrites;
    EarlyIs(gfx, d, was, regs);
    var users := UsersOf(gfx, d, was, regs);
    StoreAppend(BaseWrites(gfx, now), SgprWrites(gfx, now, props), BaseOf(gfx, was, users));
    BaseOverwrites(gfx, was, now, users);
    SgprsCommute(gfx, now, props, users);
  }

  /** Late binding equals early binding: for every kernel, generation, stale region and fresh region, when the
      buffer is built for the kernel's own properties. */
  lemma LateEqualsEarly(gfx: nat, d: Launch, was: Scratch, now: Scratch, regs: File)
    requires d.Readable()
    ensures Late(gfx, d, was, now, d.kernel.props, regs) == Early(gfx, d, now, regs)
  {
    hide StoreAll, SgprWrites, UserSgprs, Rebind, BaseOf, FixedWrites, Early, Late;
    var props := d.kernel.props;
    EarlyIs(gfx, d, now, regs);
    LateIs(gfx, d, was, now, props, regs);
    SgprsRebound(gfx, d, was, now);
    var fixed := StoreAll(FixedWrites(gfx, d), regs);
    var u := UserSgprs(gfx, d, was);
    if u == [] {
      StoreNone(fixed);
      NothingToRebind(gfx, now, props, fixed);
    } else {
      StoreOne(Write(USER_DATA_0, u), fixed);
      StoreOne(Write(USER_DATA_0, UserSgprs(gfx, d, now)), fixed);
      WritesRebind(gfx, now, props, u, fixed);
    }
  }

  lemma NothingToRebind(gfx: nat, s: Scratch, props: nat, regs: File)
    requires Room(props) == 0
    ensures StoreAll(SgprWrites(gfx, s, props), regs) == regs
  {
    hide Enabled;
  }

  /** The same over the dwords in the ring and in the buffer. */
  lemma LateWordsEqualEarly(gfx: nat, d: Launch, was: Scratch, now: Scratch, setup: seq<nat>, ib: seq<nat>,
                            setup': seq<nat>, regs: File)
    requires d.Readable() && IsIb(ib, gfx, now, d.kernel.props)
    requires AllEncodable(SetupWrites(gfx, d, was)) && setup == Encode(SetupWrites(gfx, d, was))
    requires AllEncodable(SetupWrites(gfx, d, now)) && setup' == Encode(SetupWrites(gfx, d, now))
    ensures Parse(PM4, setup + ib).Some? && Parse(PM4, setup').Some?
    ensures Run(setup + ib, regs) == Run(setup', regs)
  {
    hide SetupWrites, IbWrites, Encode, AllEncodable, Parse, Run, StoreAll, IsIb;
    EncodeRuns(SetupWrites(gfx, d, was), regs);
    EncodeRuns(SetupWrites(gfx, d, now), regs);
    IbRuns(ib, gfx, now, d.kernel.props, Run(setup, regs));
    RunAppend(setup, ib, regs);
    LateEqualsEarly(gfx, d, was, now, regs);
  }
}
