/** SET_SH_REG packets and the registers they leave behind (include/libkfd/packets/pm4.h:713-725). */
module Registers {
  import opened Packets
  import opened Util

  const SH_BASE: nat := 0x2C00

  /** The compute registers, by address; one never written is absent. */
  type File = map<nat, nat>

  /** Consecutive registers set by one packet. */
  datatype Write = Write(reg: nat, values: seq<nat>)

  predicate Encodable(w: Write) { SH_BASE <= w.reg && |w.values| < 0x3FFF }

  predicate AllEncodable(ws: seq<Write>) { forall i :: 0 <= i < |ws| ==> Encodable(ws[i]) }

  // ----- encoding -----

  function Packet(w: Write): (p: seq<nat>)
    requires Encodable(w)
    ensures |p| == 2 + |w.values|
  {
    [Header(SET_SH_REG, |w.values|), w.reg - SH_BASE] + w.values
  }

  function Encode(ws: seq<Write>): seq<nat>
    requires AllEncodable(ws)
  {
    if ws == [] then [] else Encode(ws[..|ws| - 1]) + Packet(ws[|ws| - 1])
  }

  /** Nothing from `n` on has changed. */
  ghost predicate Keeps(before: seq<nat>, after: seq<nat>, n: nat) {
    |before| == |after| && forall k :: n <= k < |after| ==> after[k] == before[k]
  }

  /** Write one packet at `at`, after the packets of `before`. */
  method SetShReg(out: array<nat>, at: nat, reg: nat, values: seq<nat>, ghost before: seq<Write>) returns (n: nat)
    requires Encodable(Write(reg, values)) && at + 2 + |values| <= out.Length
    requires AllEncodable(before) && out[..at] == Encode(before)
    modifies out
    ensures n == at + 2 + |values| && Keeps(old(out[..]), out[..], n)
    ensures AllEncodable(before + [Write(reg, values)]) && out[..n] == Encode(before + [Write(reg, values)])
  {
    hide Header, Packet, Encode;
    out[at] := Header(SET_SH_REG, |values|);
    out[at + 1] := reg - SH_BASE;
    for i := 0 to |values|
      invariant out[..at + 2] == Encode(before) + [Header(SET_SH_REG, |values|), reg - SH_BASE]
      invariant out[at + 2..at + 2 + i] == values[..i]
      invariant out[at + 2 + |values|..] == old(out[at + 2 + |values|..])
    {
      out[at + 2 + i] := values[i];
    }
    n := at + 2 + |values|;
    assert out[..n] == out[..at + 2] + out[at + 2..n];
    EncodeAppend(before, Write(reg, values));
  }

  lemma EncodeAppend(ws: seq<Write>, w: Write)
    requires AllEncodable(ws) && Encodable(w)
    ensures AllEncodable(ws + [w])
    ensures Encode(ws + [w]) == Encode(ws) + [Header(SET_SH_REG, |w.values|), w.reg - SH_BASE] + w.values
  {
    hide Header;
    assert (ws + [w])[..|ws + [w]| - 1] == ws;
  }

  // ----- what a command processor makes of a stream -----

  /** What a write puts in register `r`. */
  function At(w: Write, r: nat): nat
    requires w.reg <= r < w.reg + |w.values|
  {
    w.values[r - w.reg]
  }

  function Store(w: Write, regs: File): File {
    regs + map r | w.reg <= r < w.reg + |w.values| :: At(w, r)
  }

  function StoreAll(ws: seq<Write>, regs: File): File {
    if ws == [] then regs else Store(ws[|ws| - 1], StoreAll(ws[..|ws| - 1], regs))
  }

  /** One packet: opcode 0x76 sets consecutive registers, from the second dword on from 0x2C00; nothing else here sets
      any. */
  function Exec(p: seq<nat>, regs: File): File {
    if |p| >= 2 && Opcode(p[0]) == 0x76 then
      Store(Write(0x2C00 + p[1], p[2..]), regs)
    else
      regs
  }

  function ExecAll(ps: seq<seq<nat>>, regs: File): File {
    if ps == [] then regs else Exec(ps[|ps| - 1], ExecAll(ps[..|ps| - 1], regs))
  }

  /** The register file after a whole stream. */
  function Run(s: seq<nat>, regs: File): File
    requires Parse(PM4, s).Some?
  {
    ExecAll(Parse(PM4, s).value, regs)
  }

  lemma {:induction false} ExecAppend(a: seq<seq<nat>>, b: seq<seq<nat>>, regs: File)
    ensures ExecAll(a + b, regs) == ExecAll(b, ExecAll(a, regs))
  {
    if b == [] {
      assert a + b == a;
    } else {
      assert (a + b)[..|a + b| - 1] == a + b[..|b| - 1];
      ExecAppend(a, b[..|b| - 1], regs);
    }
  }

  lemma {:induction false} StoreAppend(a: seq<Write>, b: seq<Write>, regs: File)
    ensures StoreAll(a + b, regs) == StoreAll(b, StoreAll(a, regs))
  {
    if b == [] {
      assert a + b == a;
    } else {
      assert (a + b)[..|a + b| - 1] == a + b[..|b| - 1];
      StoreAppend(a, b[..|b| - 1], regs);
    }
  }

  /** Running a stream in two parts. */
  lemma RunAppend(a: seq<nat>, b: seq<nat>, regs: File)
    requires Parse(PM4, a).Some? && Parse(PM4, b).Some?
    ensures Parse(PM4, a + b).Some? && Run(a + b, regs) == Run(b, Run(a, regs))
  {
    hide Exec, Parse;
    ParseAppend(PM4, a, b);
    ExecAppend(Parse(PM4, a).value, Parse(PM4, b).value, regs);
  }

  lemma RunPacket(p: seq<nat>, regs: File)
    requires p != [] && PacketLen(PM4, p[0]) == |p|
    ensures Parse(PM4, p).Some? && Run(p, regs) == Exec(p, regs)
  {
    hide Exec, PacketLen, Parse;
    ParseSingle(PM4, p);
    assert [p][..|[p]| - 1] == [];
    assert ExecAll([p], regs) == Exec(p, regs);
  }

  lemma SetShRegLen(n: nat)
    requires n < 0x3FFF
    ensures Opcode(Header(SET_SH_REG, n)) == SET_SH_REG && PacketLen(PM4, Header(SET_SH_REG, n)) == n + 2
  {
    hide Header;
    HeaderFields(SET_SH_REG, n);
  }

  lemma PacketStores(w: Write, regs: File)
    requires Encodable(w)
    ensures Parse(PM4, Packet(w)).Some? && Run(Packet(w), regs) == Store(w, regs)
  {
    hide Header, Store, Parse, PacketLen, Opcode, Run;
    var p := Packet(w);
    SetShRegLen(|w.values|);
    RunPacket(p, regs);
    assert p[2..] == w.values;
  }

  /** The encoding of writes is whole packets, and running them makes the writes in order. */
  lemma {:induction false} EncodeRuns(ws: seq<Write>, regs: File)
    requires AllEncodable(ws)
    ensures Parse(PM4, Encode(ws)).Some? && Run(Encode(ws), regs) == StoreAll(ws, regs)
  {
    if ws != [] {
      hide Parse, Store, Run, Packet, PacketLen;
      var init := ws[..|ws| - 1];
      EncodeRuns(init, regs);
      PacketStores(ws[|ws| - 1], StoreAll(init, regs));
      RunAppend(Encode(init), Packet(ws[|ws| - 1]), regs);
    }
  }

  /** A NOP after the writes, whatever its body holds, changes nothing. */
  lemma NopTail(ws: seq<Write>, tail: seq<nat>, regs: File)
    requires AllEncodable(ws) && 2 <= |tail| <= 0x4000 && tail[0] == Header(NOP, |tail| - 2)
    ensures Parse(PM4, Encode(ws) + tail).Some? && Run(Encode(ws) + tail, regs) == StoreAll(ws, regs)
  {
    hide Header, Parse, Store, StoreAll, Run, PacketLen, Opcode, Encode;
    NopLen(|tail| - 2);
    HeaderFields(NOP, |tail| - 2);
    EncodeRuns(ws, regs);
    RunPacket(tail, StoreAll(ws, regs));
    RunAppend(Encode(ws), tail, regs);
  }

  // ----- rewriting sequences of writes -----

  lemma Overwrite(w: Write, w': Write, regs: File)
    requires w.reg == w'.reg && |w.values| == |w'.values|
    ensures Store(w', Store(w, regs)) == Store(w', regs)
  {
  }

  lemma Commute(w: Write, w': Write, regs: File)
    requires w.reg + |w.values| <= w'.reg || w'.reg + |w'.values| <= w.reg
    ensures Store(w', Store(w, regs)) == Store(w, Store(w', regs))
  {
  }

  /** `s` with `v` in place of the stretch at `at`. */
  function Patch(s: seq<nat>, at: nat, v: seq<nat>): (r: seq<nat>)
    requires at + |v| <= |s|
    ensures |r| == |s|
    ensures forall i :: 0 <= i < |s| ==> r[i] == if at <= i < at + |v| then v[i - at] else s[i]
  {
    s[..at] + v + s[at + |v|..]
  }

  predicate Covers(w: Write, r: nat) { w.reg <= r < w.reg + |w.values| }

  lemma StoreAt(w: Write, regs: File, r: nat)
    ensures r in Store(w, regs) <==> Covers(w, r) || r in regs
    ensures r in Store(w, regs) ==> Store(w, regs)[r] == if Covers(w, r) then w.values[r - w.reg] else regs[r]
  {
  }

  lemma WriteInside(reg: nat, s: seq<nat>, at: nat, v: seq<nat>, regs: File)
    requires at + |v| <= |s|
    ensures Store(Write(reg + at, v), Store(Write(reg, s), regs)) == Store(Write(reg, Patch(s, at, v)), regs)
  {
    hide Patch, Store;
    var w, inner, whole := Write(reg, s), Write(reg + at, v), Write(reg, Patch(s, at, v));
    forall r: nat
      ensures r in Store(inner, Store(w, regs)) <==> r in Store(whole, regs)
      ensures r in Store(whole, regs) ==> Store(inner, Store(w, regs))[r] == Store(whole, regs)[r]
    {
      StoreAt(w, regs, r);
      StoreAt(inner, Store(w, regs), r);
      StoreAt(whole, regs, r);
    }
  }

  /** A register no write covers keeps its value. */
  lemma {:induction false} Untouched(ws: seq<Write>, regs: File, r: nat)
    requires forall i :: 0 <= i < |ws| ==> !Covers(ws[i], r)
    ensures Value(StoreAll(ws, regs), r) == Value(regs, r)
  {
    hide Store;
    if ws != [] {
      StoreAt(ws[|ws| - 1], StoreAll(ws[..|ws| - 1], regs), r);
      Untouched(ws[..|ws| - 1], regs, r);
    }
  }

  /** A register's value; 0 when it was never set. */
  function Value(regs: File, r: nat): nat { if r in regs then regs[r] else 0 }

  lemma ValueAfter(w: Write, regs: File, r: nat)
    ensures Value(Store(w, regs), r) == if Covers(w, r) then w.values[r - w.reg] else Value(regs, r)
  {
    hide Store;
    StoreAt(w, regs, r);
  }
}
