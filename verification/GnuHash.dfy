/** Symbol lookup through a GNU hash section: Bloom filter, bucket, chain. On a well-formed section it is a
    linear search of the hashed symbols; on any bytes at all it ends and never returns a wrong name. */
module GnuHash {
  import opened Util
  import opened Arith

  type Word = x: nat | x < TWO32

  /** Only the field of a symbol that lookup reads. */
  datatype Symbol = Symbol(nameOffset: Word)

  // ----- names -----

  /** Where the first NUL at or after `from` is, or the size of the table. */
  function NulAt(strtab: seq<Byte>, from: nat): (k: nat)
    requires from <= |strtab|
    ensures from <= k <= |strtab|
    ensures 0 !in strtab[from..k] && (k < |strtab| ==> strtab[k] == 0)
    decreases |strtab| - from
  {
    if from == |strtab| || strtab[from] == 0 then
      from
    else
      assert strtab[from..NulAt(strtab, from + 1)] == [strtab[from]] + strtab[from + 1..NulAt(strtab, from + 1)];
      NulAt(strtab, from + 1)
  }

  /** A symbol's name: the NUL-terminated string at its offset; empty when there is none. */
  function SymName(sym: Symbol, strtab: seq<Byte>): (name: seq<Byte>)
    ensures 0 !in name
    ensures name != [] ==> sym.nameOffset + |name| < |strtab| &&
                           strtab[sym.nameOffset..sym.nameOffset + |name| + 1] == name + [0]
  {
    if sym.nameOffset >= |strtab| then []
    else
      var k := NulAt(strtab, sym.nameOffset);
      if k == |strtab| then [] else strtab[sym.nameOffset..k]
  }

  /** It is the whole of a terminated string, however long, and empty exactly without one. */
  lemma SymNameIs(sym: Symbol, strtab: seq<Byte>)
    ensures var name, at := SymName(sym, strtab), sym.nameOffset as nat;
      if exists k :: at <= k < |strtab| && strtab[k] == 0 then
        at + |name| < |strtab| && strtab[at..at + |name|] == name && strtab[at + |name|] == 0
      else name == []
  {
    if sym.nameOffset < |strtab| {
      var k := NulAt(strtab, sym.nameOffset);
      if k == |strtab| {
        forall j | sym.nameOffset <= j < |strtab| ensures strtab[j] != 0 {
          assert strtab[j] == strtab[sym.nameOffset..k][j - sym.nameOffset];
        }
      }
    }
  }

  // ----- the hash -----

  /** The hash as an unbounded polynomial in 33. */
  function Poly(name: seq<Byte>): nat {
    if name == [] then 5381 else 33 * Poly(name[..|name| - 1]) + name[|name| - 1]
  }

  function Hash(name: seq<Byte>): Word { Poly(name) % TWO32 }

  /** One round of the hash on a reduced value. */
  lemma HashStep(p: nat, c: nat)
    ensures (p % TWO32 * 32 % TWO32 + p % TWO32 + c) % TWO32 == (33 * p + c) % TWO32
  {
    var h := p % TWO32;
    ModAddMultiple(33 * h + c, TWO32, 33 * (p / TWO32));
    ModAddMultiple(33 * h + c, TWO32, -(h * 32 / TWO32));
  }

  /** Wrapping at 32 bits after every character gives the polynomial modulo 2^32. */
  method HashGnu(name: seq<Byte>) returns (h: Word)
    ensures h == Hash(name)
  {
    h := 5381;
    for i := 0 to |name|
      invariant h == Hash(name[..i])
    {
      assert name[..i + 1][..i] == name[..i];
      HashStep(Poly(name[..i]), name[i]);
      h := (h * 32 % TWO32 + h + name[i]) % TWO32;
    }
    assert name[..|name|] == name;
  }

  /** The values published for the hash: of no name, and of "exit". */
  lemma KnownHashes()
    ensures Hash([]) == 0x1505 && Hash([0x65, 0x78, 0x69, 0x74]) == 0x7c96_7e3f
  {
    PolyMore([], 0x65);
    PolyMore([0x65], 0x78);
    PolyMore([0x65, 0x78], 0x69);
    PolyMore([0x65, 0x78, 0x69], 0x74);
    assert [] + [0x65 as Byte] == [0x65] && [0x65] + [0x78] == [0x65, 0x78];
    assert [0x65, 0x78] + [0x69] == [0x65, 0x78, 0x69] && [0x65, 0x78, 0x69] + [0x74] == [0x65, 0x78, 0x69, 0x74];
    DivModUnique(33 * (33 * (33 * (33 * 5381 + 0x65) + 0x78) + 0x69) + 0x74, TWO32, 1, 0x7c96_7e3f);
  }

  lemma PolyMore(name: seq<Byte>, c: Byte)
    ensures Poly(name + [c]) == 33 * Poly(name) + c
  {
    assert (name + [c])[..|name + [c]| - 1] == name;
  }

  // ----- the section -----

  function Pow2(n: nat): (p: nat)
    ensures p > 0
  {
    if n == 0 then 1 else 2 * Pow2(n - 1)
  }

  predicate Bit(word: nat, i: nat) { word / Pow2(i) % 2 == 1 }

  /** The section as the 32-bit words of its bytes; a trailing partial word is never read. */
  datatype Section = Section(words: seq<Word>) {
    ghost predicate HasHeader() { |words| >= 4 }

    function Buckets(): Word requires HasHeader() { words[0] }
    function Symndx(): Word requires HasHeader() { words[1] }
    function Maskwords(): Word requires HasHeader() { words[2] }
    function Shift2(): Word requires HasHeader() { words[3] }

    /** The header's counts and shift can be used with this many words. */
    predicate Laid()
      requires HasHeader()
    {
      Buckets() > 0 && Maskwords() > 0 && 4 + 2 * Maskwords() + Buckets() <= |words| && Shift2() < 32
    }

    function FilterWord(i: nat): nat
      requires HasHeader() && Laid() && i < Maskwords()
    {
      words[4 + 2 * i] + TWO32 * words[4 + 2 * i + 1]
    }

    function Bucket(b: nat): Word
      requires HasHeader() && Laid() && b < Buckets()
    {
      words[4 + 2 * Maskwords() + b]
    }

    function Values(): seq<Word>
      requires HasHeader() && Laid()
    {
      words[4 + 2 * Maskwords() + Buckets()..]
    }

    /** The bucket of hash `h`. */
    function Index(h: Word): (b: nat)
      requires HasHeader() && Laid()
      ensures b < Buckets()
    {
      h % Buckets()
    }

    /** The chain word of symbol `i`. */
    function Chain(i: nat): Word
      requires HasHeader() && Laid() && Symndx() <= i < Symndx() + |Values()|
    {
      Values()[i - Symndx()]
    }

    /** The filter admits hash `h`: both of its bits are set in its word. */
    predicate Admits(h: Word)
      requires HasHeader() && Laid()
    {
      var w := FilterWord(h / 64 % Maskwords());
      Bit(w, h % 64) && Bit(w, h / Pow2(Shift2()) % 64)
    }
  }

  // ----- what a linker promises, and the scan that lookup replaces -----

  /** The lowest symbol from `from` on that has the name. */
  function LinearSearch(name: seq<Byte>, syms: seq<Symbol>, strtab: seq<Byte>, from: nat): (r: Option<nat>)
    requires from <= |syms|
    ensures r.Some? ==> from <= r.value < |syms| && SymName(syms[r.value], strtab) == name
    ensures forall i :: from <= i < (if r.Some? then r.value else |syms|) ==> SymName(syms[i], strtab) != name
    decreases |syms| - from
  {
    if from == |syms| then None
    else if SymName(syms[from], strtab) == name then Some(from)
    else LinearSearch(name, syms, strtab, from + 1)
  }

  /** The hash of symbol `i`. */
  function HashOf(syms: seq<Symbol>, strtab: seq<Byte>, i: nat): Word
    requires i < |syms|
  {
    Hash(SymName(syms[i], strtab))
  }

  /** The bucket it falls in. */
  function BucketOf(t: Section, syms: seq<Symbol>, strtab: seq<Byte>, i: nat): nat
    requires t.HasHeader() && t.Laid() && i < |syms|
  {
    HashOf(syms, strtab, i) % t.Buckets()
  }

  /** The filter's 64-bit number `k`, the low half first. */
  function Filter(t: Section, k: nat): nat
    requires 4 + 2 * k + 1 < |t.words|
  {
    t.words[4 + 2 * k] + TWO32 * t.words[5 + 2 * k]
  }

  /** Two bits of a hash are set in its number of the filter: one from its low six bits, one from six further up. */
  predicate Filtered(t: Section, h: Word)
    requires t.HasHeader() && t.Laid()
  {
    var w := Filter(t, h / 64 % t.Maskwords());
    Bit(w, h % 64) && Bit(w, h / Pow2(t.Shift2()) % 64)
  }

  /** Symbol `i` is where a linker puts it: its bits in the filter, its hash in the chain, in one run of its
      bucket's symbols that starts at the bucket's entry and whose last chain word alone is odd. */
  ghost predicate Listed(t: Section, syms: seq<Symbol>, strtab: seq<Byte>, i: nat)
    requires t.HasHeader() && t.Laid() && t.Symndx() <= i < |syms| <= t.Symndx() + |t.Values()|
  {
    var h := HashOf(syms, strtab, i);
    var b := BucketOf(t, syms, strtab, i);
    && Filtered(t, h)
    && t.Chain(i) / 2 == h / 2
    && (t.Chain(i) % 2 == 1 <==> i + 1 == |syms| || BucketOf(t, syms, strtab, i + 1) != b)
    && t.Symndx() <= t.Bucket(b) <= i
    && forall j :: t.Bucket(b) <= j <= i ==> BucketOf(t, syms, strtab, j) == b
  }

  /** The section indexes every symbol from its `symndx` on. */
  ghost predicate WellFormed(t: Section, syms: seq<Symbol>, strtab: seq<Byte>)
    requires t.HasHeader()
  {
    && t.Laid()
    && t.Symndx() <= |syms| <= t.Symndx() + |t.Values()|
    && |syms| <= TWO32
    && forall i: nat :: t.Symndx() <= i < |syms| ==> Listed(t, syms, strtab, i)
  }

  /** A walk from `start` comes to symbol `m`: no chain word before it ends the chain. */
  ghost predicate OnChain(t: Section, syms: seq<Symbol>, start: nat, m: nat)
    requires t.HasHeader() && t.Laid()
  {
    && t.Symndx() <= start <= m < |syms| <= TWO32
    && m < t.Symndx() + |t.Values()|
    && forall i :: start <= i < m ==> t.Chain(i) % 2 == 0
  }

  /** A walk from its bucket's entry comes to every listed symbol. */
  lemma ListedIsReached(t: Section, syms: seq<Symbol>, strtab: seq<Byte>, m: nat)
    requires t.HasHeader() && WellFormed(t, syms, strtab) && t.Symndx() <= m < |syms|
    ensures Filtered(t, HashOf(syms, strtab, m)) && t.Chain(m) / 2 == HashOf(syms, strtab, m) / 2
    ensures OnChain(t, syms, t.Bucket(BucketOf(t, syms, strtab, m)), m)
  {
    hide HashOf, Filtered, Section.Bucket, Section.Chain;
    assert Listed(t, syms, strtab, m);
    var b := BucketOf(t, syms, strtab, m);
    forall i | t.Bucket(b) <= i < m ensures t.Chain(i) % 2 == 0 {
      assert Listed(t, syms, strtab, i);
      assert BucketOf(t, syms, strtab, i) == b && BucketOf(t, syms, strtab, i + 1) == b;
    }
  }

  // ----- lookup -----

  /** Symbol `m` is on the chain with the name and its hash. */
  ghost predicate Match(name: seq<Byte>, h: Word, t: Section, syms: seq<Symbol>, strtab: seq<Byte>, start: nat, m: nat)
    requires t.HasHeader() && t.Laid()
  {
    OnChain(t, syms, start, m) && t.Chain(m) / 2 == h / 2 && SymName(syms[m], strtab) == name
  }

  /** The walk goes on from symbol `i`: it is in both tables, its chain goes on, and it is not the one asked for. */
  predicate GoesOn(name: seq<Byte>, h: Word, t: Section, syms: seq<Symbol>, strtab: seq<Byte>, i: nat)
    requires t.HasHeader() && t.Laid()
  {
    && t.Symndx() <= i < |syms| && i - t.Symndx() < |t.Values()|
    && !(h / 2 == t.Chain(i) / 2 && SymName(syms[i], strtab) == name)
    && t.Chain(i) % 2 == 0
  }

  /** The walk ends at symbol `i` because it is the one asked for. */
  predicate Hit(name: seq<Byte>, h: Word, t: Section, syms: seq<Symbol>, strtab: seq<Byte>, i: nat)
    requires t.HasHeader() && t.Laid()
  {
    && t.Symndx() <= i < |syms| && i - t.Symndx() < |t.Values()|
    && h / 2 == t.Chain(i) / 2 && SymName(syms[i], strtab) == name
  }

  /** The walk goes on from every 32-bit index: a section of at least 16 GiB that indexes from symbol 0, with no chain
      ended and the name not found. */
  ghost predicate Endless(name: seq<Byte>, h: Word, t: Section, syms: seq<Symbol>, strtab: seq<Byte>)
    requires t.HasHeader() && t.Laid()
  {
    forall i: nat :: i < TWO32 ==> GoesOn(name, h, t, syms, strtab, i)
  }

  /** The symbol a walk that has not ended is at after `k` rounds. */
  function IndexAfter(start: Word, k: nat): Word { (start + k) % TWO32 }

  /** A walk never ends, from whichever symbol, if and only if the section is endless. */
  lemma NeverEndsIff(name: seq<Byte>, h: Word, t: Section, syms: seq<Symbol>, strtab: seq<Byte>, start: Word)
    requires t.HasHeader() && t.Laid()
    ensures (forall k: nat :: GoesOn(name, h, t, syms, strtab, IndexAfter(start, k))) <==>
            Endless(name, h, t, syms, strtab)
  {
    hide GoesOn;
    if forall k: nat :: GoesOn(name, h, t, syms, strtab, IndexAfter(start, k)) {
      forall i: nat | i < TWO32 ensures GoesOn(name, h, t, syms, strtab, i) {
        var k := if i >= start then i - start else i + TWO32 - start;
        DivModUnique(start + k, TWO32, if i >= start then 0 else 1, i);
        assert IndexAfter(start, k) == i;
      }
    }
  }

  /** Only a section that indexes from symbol 0 and has 2^32 chain words and symbols can be endless. */
  lemma EndlessIsHuge(name: seq<Byte>, h: Word, t: Section, syms: seq<Symbol>, strtab: seq<Byte>)
    requires t.HasHeader() && t.Laid()
    ensures Endless(name, h, t, syms, strtab) ==> t.Symndx() == 0 && |syms| >= TWO32 && |t.Values()| >= TWO32
  {
    if Endless(name, h, t, syms, strtab) {
      assert GoesOn(name, h, t, syms, strtab, 0);
      assert GoesOn(name, h, t, syms, strtab, TWO32 - 1);
    }
  }

  /** A well-formed section is not. */
  lemma WellFormedEnds(name: seq<Byte>, h: Word, t: Section, syms: seq<Symbol>, strtab: seq<Byte>)
    requires t.HasHeader() && WellFormed(t, syms, strtab)
    ensures !Endless(name, h, t, syms, strtab)
  {
    hide Filtered, HashOf, Section.Bucket, SymName;
    if |syms| == t.Symndx() {
      assert !GoesOn(name, h, t, syms, strtab, 0);
    } else {
      assert Listed(t, syms, strtab, |syms| - 1);
      assert !GoesOn(name, h, t, syms, strtab, |syms| - 1);
    }
  }

  lemma OneRoundOn(start: Word, k: nat)
    ensures (IndexAfter(start, k) + 1) % TWO32 == IndexAfter(start, k + 1)
  {
    ModSum(start + k, 1, TWO32);
  }

  /** After `k` rounds the walk has come to the first symbol it does not go on from, and the answer is `r`. */
  ghost predicate WalkAnswers(name: seq<Byte>, h: Word, t: Section, syms: seq<Symbol>, strtab: seq<Byte>, start: Word,
                              k: nat, r: Option<nat>)
    requires t.HasHeader() && t.Laid()
  {
    var i := IndexAfter(start, k);
    && (forall j: nat :: j < k ==> GoesOn(name, h, t, syms, strtab, IndexAfter(start, j)))
    && !GoesOn(name, h, t, syms, strtab, i)
    && r == if Hit(name, h, t, syms, strtab, i) then Some(i) else None
  }

  /** The answer of a walk is the first match on its chain, if there is one. */
  lemma MatchIsAnswered(name: seq<Byte>, h: Word, t: Section, syms: seq<Symbol>, strtab: seq<Byte>, start: Word, k: nat,
                        r: Option<nat>)
    requires t.HasHeader() && t.Laid() && WalkAnswers(name, h, t, syms, strtab, start, k, r)
    ensures forall m: nat :: Match(name, h, t, syms, strtab, start, m) ==> r.Some? && r.value <= m
  {
    hide SymName, Section.Laid, Section.Symndx, Section.HasHeader, Section.Chain, Section.Values;
    forall m: nat | Match(name, h, t, syms, strtab, start, m) ensures r.Some? && r.value <= m {
      var n := m - start;
      assert IndexAfter(start, n) == m && !GoesOn(name, h, t, syms, strtab, m);
      assert k <= n;
      assert IndexAfter(start, k) == start + k;
    }
  }

  /** Walk chain words from symbol `start` until one ends the chain, the table ends, or the name is found. */
  method Walk(name: seq<Byte>, h: Word, t: Section, syms: seq<Symbol>, strtab: seq<Byte>, start: Word)
    returns (r: Option<nat>)
    requires t.HasHeader() && t.Laid() && !Endless(name, h, t, syms, strtab)
    ensures exists k: nat :: WalkAnswers(name, h, t, syms, strtab, start, k, r)
    ensures r.Some? ==> t.Symndx() <= r.value < |syms| && r.value - t.Symndx() < |t.Values()|
    ensures r.Some? ==> SymName(syms[r.value], strtab) == name
    ensures forall m: nat :: Match(name, h, t, syms, strtab, start, m) ==> r.Some? && r.value <= m
  {
    hide Match, SymName, Section.Laid, Section.Symndx, Section.HasHeader;
    var values := t.Values();
    var i: Word := start;
    ghost var k := 0;
    ghost var stop: nat :| stop < TWO32 && !GoesOn(name, h, t, syms, strtab, stop);
    while i >= t.Symndx() && i < |syms|
      invariant i == IndexAfter(start, k)
      invariant forall j: nat :: j < k ==> GoesOn(name, h, t, syms, strtab, IndexAfter(start, j))
      decreases if i <= stop then stop - i else stop + TWO32 - i
    {
      var vi := i - t.Symndx();
      if vi >= |values| {
        break;
      }
      var chain := values[vi];
      assert chain == t.Chain(i);
      // the low bit marks the end of a chain and is not part of the hash
      if h / 2 == chain / 2 && SymName(syms[i], strtab) == name {
        MatchIsAnswered(name, h, t, syms, strtab, start, k, Some(i));
        return Some(i);
      }
      if chain % 2 == 1 {
        break;
      }
      assert GoesOn(name, h, t, syms, strtab, i);
      OneRoundOn(start, k);
      i := (i + 1) % TWO32;
      k := k + 1;
    }
    MatchIsAnswered(name, h, t, syms, strtab, start, k, None);
    r := None;
  }

  /** The lookup walks the section for the name, and never ends. */
  ghost predicate Loops(name: seq<Byte>, t: Section, syms: seq<Symbol>, strtab: seq<Byte>)
    requires t.HasHeader()
  {
    t.Laid() && t.Admits(Hash(name)) && Endless(name, Hash(name), t, syms, strtab)
  }

  lemma AdmitsFiltered(t: Section, h: Word)
    requires t.HasHeader() && t.Laid()
    ensures t.Admits(h) <==> Filtered(t, h)
  {
    hide Pow2;
  }

  lemma LaidIfWellFormed(t: Section, syms: seq<Symbol>, strtab: seq<Byte>)
    requires t.HasHeader()
    ensures WellFormed(t, syms, strtab) ==> t.Laid() && t.Symndx() <= |syms|
  {
  }

  /** Look the name up, unless that never ends. */
  method Lookup(name: seq<Byte>, t: Section, syms: seq<Symbol>, strtab: seq<Byte>) returns (r: Option<nat>)
    requires t.HasHeader() && !Loops(name, t, syms, strtab)
    ensures r.Some? ==> t.Laid() && t.Symndx() <= r.value < |syms| && r.value - t.Symndx() < |t.Values()|
    ensures r.Some? ==> SymName(syms[r.value], strtab) == name
    ensures t.Laid() ==>
      if Filtered(t, Hash(name)) then
        exists k: nat :: WalkAnswers(name, Hash(name), t, syms, strtab, t.Bucket(Hash(name) % t.Buckets()), k, r)
      else r == None
    ensures WellFormed(t, syms, strtab) ==> r == LinearSearch(name, syms, strtab, t.Symndx())
  {
    hide WalkAnswers, Hash, SymName, Listed, OnChain, Endless, Section.Admits, Section.Chain, Filtered, WellFormed;
    LaidIfWellFormed(t, syms, strtab);
    if !t.Laid() {
      return None;
    }
    var h := HashGnu(name);
    ghost var want := if WellFormed(t, syms, strtab) then LinearSearch(name, syms, strtab, t.Symndx()) else None;
    if want.Some? {
      ListedIsReached(t, syms, strtab, want.value);
    }
    AdmitsFiltered(t, h);
    if !t.Admits(h) {
      return None;
    }
    assert want.Some? ==> Match(name, h, t, syms, strtab, t.Bucket(t.Index(h)), want.value);
    r := Walk(name, h, t, syms, strtab, t.Bucket(t.Index(h)));
  }

  // ----- a section on which lookup never ends -----

  /** One bucket and one filter word made of `w` twice, indexing from symbol 0, with 2^32 chain words of zero. */
  function Huge(w: Word): (t: Section)
    ensures t.HasHeader()
  {
    Section([1, 0, 1, 0, w, w, 0] + seq(TWO32, _ => 0))
  }

  lemma HugeIsLaid(w: Word)
    ensures Huge(w).Laid() && Huge(w).Symndx() == 0 && Huge(w).Maskwords() == 1 && |Huge(w).Values()| == TWO32
    ensures forall i :: 0 <= i < TWO32 ==> Huge(w).Chain(i) == 0
    ensures Huge(w).FilterWord(0) == w + TWO32 * w
  {
  }

  /** With 2^32 symbols that have no name, the walk for any name is endless. */
  lemma HugeIsEndless(name: seq<Byte>, w: Word)
    requires name != []
    ensures Huge(w).Laid()
    ensures Endless(name, Hash(name), Huge(w), seq(TWO32, _ => Symbol(0)), [0])
  {
    hide Hash, Section.Laid, Section.HasHeader, Section.Chain, Section.Values, Section.Symndx, Huge;
    HugeIsLaid(w);
    SymNameIs(Symbol(0), [0]);
    assert SymName(Symbol(0), [0]) == [];
  }

  /** A word of ones has every bit. */
  lemma AllOnes(i: nat)
    requires i < 64
    ensures Bit(TWO64 - 1, i)
  {
    hide Pow2;
    Pow2Splits(i, 64 - i);
    Pow2At64();
    Pow2Even(64 - i);
    OddQuotient(Pow2(i), Pow2(64 - i));
  }

  lemma Pow2Even(i: nat)
    requires i > 0
    ensures Pow2(i) % 2 == 0
  {
  }

  lemma OddQuotient(a: nat, b: nat)
    requires a > 0 && b % 2 == 0 && a * b == TWO64
    ensures (TWO64 - 1) / a % 2 == 1
  {
    assert a * (b - 1) == a * b - a;
    DivModUnique(TWO64 - 1, a, b - 1, a - 1);
  }

  lemma {:induction false} Pow2Splits(i: nat, j: nat)
    ensures Pow2(i + j) == Pow2(i) * Pow2(j)
  {
    if i > 0 {
      Pow2Splits(i - 1, j);
      assert 2 * (Pow2(i - 1) * Pow2(j)) == 2 * Pow2(i - 1) * Pow2(j);
    }
  }

  lemma Pow2At64()
    ensures Pow2(64) == TWO64
  {
    assert Pow2(4) == 0x10;
    Pow2Splits(4, 4);
    Pow2Splits(8, 8);
    Pow2Splits(16, 16);
    Pow2Splits(32, 32);
  }

  /** With a filter of ones the lookup of every name loops; with a filter of zeros the same section answers none. */
  lemma HugeLoopsIff(name: seq<Byte>, w: Word)
    requires name != [] && (w == 0 || w == TWO32 - 1)
    ensures Loops(name, Huge(w), seq(TWO32, _ => Symbol(0)), [0]) <==> w == TWO32 - 1
  {
    hide Hash, Endless, Bit, Pow2, Huge, Section.Laid, Section.Maskwords, Section.FilterWord, Section.Shift2;
    HugeIsLaid(w);
    HugeIsEndless(name, w);
    HugeAdmitsIff(w, Hash(name));
  }

  lemma HugeAdmitsIff(w: Word, h: Word)
    requires w == 0 || w == TWO32 - 1
    ensures Huge(w).Laid() && (Huge(w).Admits(h) <==> w == TWO32 - 1)
  {
    HugeIsLaid(w);
    hide Pow2, Huge, Section.Laid;
    if w == 0 {
      NoBits(h % 64);
    } else {
      AllOnes(h % 64);
      AllOnes(h / Pow2(Huge(w).Shift2()) % 64);
    }
  }

  lemma NoBits(i: nat)
    ensures !Bit(0, i)
  {
    DivModUnique(0, Pow2(i), 0, 0);
  }
}
