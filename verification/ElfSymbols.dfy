/** Finding a symbol by name in an ELF image: the hash sections in order, each with the symbol and string tables its
    links name (lib/detail/elf.cpp:345-361 and 430-477). */
module ElfSymbols {
  import opened Bytes
  import opened GnuHash
  import opened Util

  const SHT_GNU_HASH: nat := 0x6fff_fff6
  const SYMBOL_BYTES: nat := 24
  const HEADER_BYTES: nat := 16

  datatype Shdr = Shdr(kind: nat, offset: Word64, size: Word64, link: nat, entsize: Word64)

  /** The section's bytes lie in the file. */
  predicate InFile(h: Shdr, file: seq<Byte>) { h.size <= |file| && h.offset <= |file| - h.size }

  function U32(s: seq<Byte>, at: nat): (v: Word)
    requires at + 4 <= |s|
  {
    Bound4();
    FromBytes(s[at..at + 4])
  }

  lemma Bound4()
    ensures Bound(4) == TWO32
  {
    assert Bound(2) == 0x1_0000;
    assert Bound(4) == 256 * (256 * Bound(2));
  }

  function HashSection(h: Shdr, file: seq<Byte>): (t: Section)
    requires InFile(h, file)
    ensures |t.words| == h.size / 4
  {
    Section(seq(h.size / 4, k requires 0 <= k < h.size / 4 => U32(file, h.offset + 4 * k)))
  }

  /** The symbols of a table; none when its entries or its bounds are wrong. */
  function SymbolsFor(h: Shdr, file: seq<Byte>): seq<Symbol> {
    if h.entsize != SYMBOL_BYTES || !InFile(h, file) then []
    else
      seq(h.size / SYMBOL_BYTES, k requires 0 <= k < h.size / SYMBOL_BYTES =>
        Symbol(U32(file, h.offset + SYMBOL_BYTES * k)))
  }

  /** What one section header leads to. */
  datatype Visit = Skip | Fail(error: Errno) | Look(table: Section, syms: seq<Symbol>, strtab: seq<Byte>)

  function VisitOf(sh: seq<Shdr>, file: seq<Byte>, i: nat): (v: Visit)
    requires i < |sh|
    ensures v.Look? ==> v.table.HasHeader() && |v.table.words| <= |file| / 4
  {
    var h := sh[i];
    if h.kind != SHT_GNU_HASH then Skip
    else if !InFile(h, file) then Fail(ERANGE)
    else if h.size < HEADER_BYTES || h.link >= |sh| then Fail(ENOEXEC)
    else
      var symtab := sh[h.link];
      var syms := SymbolsFor(symtab, file);
      if syms == [] then Skip
      else if symtab.link >= |sh| then Fail(ENOEXEC)
      else
        var str := sh[symtab.link];
        if !InFile(str, file) then Fail(ERANGE)
        else Look(HashSection(h, file), syms, file[str.offset..str.offset + str.size])
  }

  /** A symbol found: the section header that led to it and its index. */
  datatype Found = Found(section: nat, index: nat)

  /** The answer a scan of the hashed symbols gives, section by section. */
  function Search(name: seq<Byte>, sh: seq<Shdr>, file: seq<Byte>, i: nat): Result<Option<Found>>
    requires i <= |sh|
    decreases |sh| - i
  {
    if i == |sh| then Ok(None)
    else
      match VisitOf(sh, file, i)
      case Skip => Search(name, sh, file, i + 1)
      case Fail(e) => Err(e)
      case Look(t, syms, strtab) =>
        if t.Laid() && t.Symndx() <= |syms| && LinearSearch(name, syms, strtab, t.Symndx()).Some? then
          Ok(Some(Found(i, LinearSearch(name, syms, strtab, t.Symndx()).value)))
        else Search(name, sh, file, i + 1)
  }

  /** Every hash section that is looked into indexes its symbols. */
  ghost predicate AllWellFormed(sh: seq<Shdr>, file: seq<Byte>) {
    forall i: nat :: i < |sh| && VisitOf(sh, file, i).Look? ==>
      var v := VisitOf(sh, file, i); WellFormed(v.table, v.syms, v.strtab)
  }

  /** The section `f` names is looked into, and the symbol there has the name. */
  ghost predicate HasName(name: seq<Byte>, sh: seq<Shdr>, file: seq<Byte>, f: Found) {
    f.section < |sh| && VisitOf(sh, file, f.section).Look? &&
    var v := VisitOf(sh, file, f.section);
    f.index < |v.syms| && SymName(v.syms[f.index], v.strtab) == name
  }

  /** The lookup never ends in the section that header `i` leads to. */
  ghost predicate EndlessVisit(name: seq<Byte>, sh: seq<Shdr>, file: seq<Byte>, i: nat)
    requires i < |sh|
  {
    var v := VisitOf(sh, file, i);
    v.Look? && Loops(name, v.table, v.syms, v.strtab)
  }

  /** It always ends in a file below 16 GiB. */
  lemma SmallFilesEnd(name: seq<Byte>, sh: seq<Shdr>, file: seq<Byte>, i: nat)
    requires i < |sh| && |file| < 4 * TWO32
    ensures !EndlessVisit(name, sh, file, i)
  {
    hide Endless, Hash, VisitOf;
    var v := VisitOf(sh, file, i);
    if v.Look? && v.table.Laid() {
      EndlessIsHuge(name, Hash(name), v.table, v.syms, v.strtab);
      assert |v.table.Values()| <= |v.table.words|;
    }
  }

  // ----- what the bytes of a file say -----

  /** The name of a symbol whose name offset is `off`, in the string table of `size` bytes at `at`: the string there, up
      to its NUL, or nothing when none ends it. */
  ghost predicate NameAt(file: seq<Byte>, at: nat, size: nat, off: nat, name: seq<Byte>)
    requires at + size <= |file|
  {
    if off < size && 0 in file[at + off..at + size] then
      off + |name| < size && file[at + off..at + off + |name|] == name && file[at + off + |name|] == 0 && 0 !in name
    else
      name == []
  }

  /** A header of type SHT_GNU_HASH whose section is in the file and has room for the table's four counts. */
  predicate HashHeader(sh: seq<Shdr>, file: seq<Byte>, i: nat) {
    && i < |sh| && sh[i].kind == 0x6fff_fff6
    && sh[i].offset + sh[i].size <= |file| && 16 <= sh[i].size && sh[i].link < |sh|
  }

  /** It links to a table of 24-byte symbols in the file, which links to a string table in the file. */
  predicate HasTables(sh: seq<Shdr>, file: seq<Byte>, i: nat)
    requires HashHeader(sh, file, i)
  {
    var t := sh[sh[i].link];
    t.entsize == 24 <= t.size && t.offset + t.size <= |file| && t.link < |sh| &&
    sh[t.link].offset + sh[t.link].size <= |file|
  }

  /** Or to a table without symbols, which is passed over. */
  predicate Symbolless(sh: seq<Shdr>, file: seq<Byte>, i: nat)
    requires HashHeader(sh, file, i)
  {
    var t := sh[sh[i].link];
    t.entsize != 24 || t.size < 24 || |file| < t.offset + t.size
  }

  /** Symbol `k` of the table that header `i` links to has the name; 4-byte name offsets start the 24-byte symbols. */
  ghost predicate SymbolNamed(sh: seq<Shdr>, file: seq<Byte>, i: nat, k: nat, name: seq<Byte>)
    requires HashHeader(sh, file, i) && HasTables(sh, file, i)
  {
    var t := sh[sh[i].link];
    var str := sh[t.link];
    24 * k + 24 <= t.size && NameAt(file, str.offset, str.size, Le32(file, t.offset + 24 * k), name)
  }

  lemma U32Is(file: seq<Byte>, at: nat)
    requires at + 4 <= |file|
    ensures U32(file, at) == Le32(file, at)
  {
    hide FromBytes;
    Le32Is(file, at);
  }

  lemma SliceOfSlice(file: seq<Byte>, at: nat, size: nat, a: nat, b: nat)
    requires at + size <= |file| && a <= b <= size
    ensures file[at..at + size][a..b] == file[at + a..at + b]
  {
    var inner := file[at..at + size][a..b];
    assert forall k :: 0 <= k < |inner| ==> inner[k] == file[at + a..at + b][k];
  }

  lemma NameAtIs(file: seq<Byte>, at: nat, size: nat, off: Word)
    requires at + size <= |file|
    ensures NameAt(file, at, size, off, SymName(Symbol(off), file[at..at + size]))
  {
    hide SymName;
    var strtab := file[at..at + size];
    var name := SymName(Symbol(off), strtab);
    SymNameIs(Symbol(off), strtab);
    if off < size {
      assert file[at + off..at + size] == strtab[off..];
      if 0 in strtab[off..] {
        var k :| 0 <= k < |strtab[off..]| && strtab[off..][k] == 0;
        assert strtab[off + k] == 0;
        SliceOfSlice(file, at, size, off, off + |name|);
      } else {
        assert forall k :: off <= k < size ==> strtab[k] == strtab[off..][k - off];
      }
    }
  }

  /** Such a header is looked into, with these symbols and their names. */
  lemma IsLookedInto(sh: seq<Shdr>, file: seq<Byte>, i: nat)
    requires HashHeader(sh, file, i) && HasTables(sh, file, i)
    ensures var v := VisitOf(sh, file, i);
      && v.Look? && v.table == HashSection(sh[i], file) && |v.syms| == sh[sh[i].link].size / 24
      && forall k: nat :: k < |v.syms| ==> SymbolNamed(sh, file, i, k, SymName(v.syms[k], v.strtab))
  {
    hide SymName, FromBytes, NameAt;
    var t := sh[sh[i].link];
    var str := sh[t.link];
    var v := VisitOf(sh, file, i);
    forall k: nat | k < |v.syms| ensures SymbolNamed(sh, file, i, k, SymName(v.syms[k], v.strtab)) {
      U32Is(file, t.offset + 24 * k);
      NameAtIs(file, str.offset, str.size, v.syms[k].nameOffset);
    }
  }

  // ----- what a linker writes there -----

  function Le64(file: seq<Byte>, at: nat): nat
    requires at + 8 <= |file|
  {
    Le32(file, at) + TWO32 * Le32(file, at + 4)
  }

  /** The table's parts, by their places in the file: four counts, then the filter's 64-bit numbers, then a 32-bit entry
      for each bucket, then a 32-bit chain word for each symbol hashed. */
  lemma TableBytes(h: Shdr, file: seq<Byte>, k: nat)
    requires h.offset + h.size <= |file| && 16 <= h.size
    ensures var t := HashSection(h, file);
      && t.Buckets() == Le32(file, h.offset) && t.Symndx() == Le32(file, h.offset + 4)
      && t.Maskwords() == Le32(file, h.offset + 8) && t.Shift2() == Le32(file, h.offset + 12)
      && (t.Laid() <==> t.Buckets() > 0 && t.Maskwords() > 0 && t.Shift2() < 32 &&
                        16 + 8 * t.Maskwords() + 4 * t.Buckets() <= h.size)
    ensures var t := HashSection(h, file); t.Laid() ==>
      && (k < t.Maskwords() ==> t.FilterWord(k) == Filter(t, k) == Le64(file, h.offset + 16 + 8 * k))
      && (k < t.Buckets() ==> t.Bucket(k) == Le32(file, h.offset + 16 + 8 * t.Maskwords() + 4 * k))
      && |t.Values()| == (h.size - 16 - 8 * t.Maskwords() - 4 * t.Buckets()) / 4
      && (k < |t.Values()| ==>
            t.Chain(t.Symndx() + k) == Le32(file, h.offset + 16 + 8 * t.Maskwords() + 4 * t.Buckets() + 4 * k))
  {
    hide FromBytes, Le32;
    var t := HashSection(h, file);
    forall i: nat | i < |t.words| ensures t.words[i] == Le32(file, h.offset + 4 * i) {
      U32Is(file, h.offset + 4 * i);
    }
  }

  /** One symbol's place in the table at `at`: with hash `h` and `nb` buckets. `hashes` are those of all symbols. */
  ghost predicate Placed(file: seq<Byte>, at: nat, nb: nat, first: nat, mw: nat, shift: nat, hashes: seq<Word>, k: nat)
    requires nb > 0 && mw > 0 && first <= k < |hashes|
    requires at + 16 + 8 * mw + 4 * nb + 4 * (|hashes| - first) <= |file|
  {
    var h := hashes[k];
    var filter := Le64(file, at + 16 + 8 * (h / 64 % mw));
    var entry := Le32(file, at + 16 + 8 * mw + 4 * (h % nb));
    var chain := Le32(file, at + 16 + 8 * mw + 4 * nb + 4 * (k - first));
    && Bit(filter, h % 64) && Bit(filter, h / Pow2(shift) % 64)
    && chain / 2 == h / 2 && (chain % 2 == 1 <==> k + 1 == |hashes| || hashes[k + 1] % nb != h % nb)
    && first <= entry <= k && forall j :: entry <= j <= k ==> hashes[j] % nb == h % nb
  }

  /** The table that header `i` leads to holds all symbols from its first one on, whose names these are. */
  ghost predicate Linked(sh: seq<Shdr>, file: seq<Byte>, i: nat, names: seq<seq<Byte>>) {
    && HashHeader(sh, file, i) && HasTables(sh, file, i)
    && |names| == sh[sh[i].link].size / 24 <= TWO32
    && (forall k: nat :: k < |names| ==> SymbolNamed(sh, file, i, k, names[k]))
    && var at := sh[i].offset;
       var nb, first, mw, shift := Le32(file, at), Le32(file, at + 4), Le32(file, at + 8), Le32(file, at + 12);
       var hashes := HashesOf(names);
    && nb > 0 && mw > 0 && shift < 32 && 16 + 8 * mw + 4 * nb <= sh[i].size
    && first <= |names| && 16 + 8 * mw + 4 * nb + 4 * (|names| - first) <= sh[i].size
    && forall k: nat :: first <= k < |names| ==> Placed(file, at, nb, first, mw, shift, hashes, k)
  }

  function HashesOf(names: seq<seq<Byte>>): (r: seq<Word>)
    ensures |r| == |names|
  {
    seq(|names|, k requires 0 <= k < |names| => Hash(names[k]))
  }

  lemma OneName(file: seq<Byte>, at: nat, size: nat, off: nat, a: seq<Byte>, b: seq<Byte>)
    requires at + size <= |file| && NameAt(file, at, size, off, a) && NameAt(file, at, size, off, b)
    ensures a == b
  {
    assert forall k :: 0 <= k < |a| ==> a[k] == file[at + off + k] && a[k] != 0;
    assert forall k :: 0 <= k < |b| ==> b[k] == file[at + off + k] && b[k] != 0;
  }

  /** The names are those the lookup sees. */
  lemma LinkedNames(sh: seq<Shdr>, file: seq<Byte>, i: nat, names: seq<seq<Byte>>)
    requires Linked(sh, file, i, names)
    ensures var v := VisitOf(sh, file, i);
      && v.Look? && |v.syms| == |names| && v.table == HashSection(sh[i], file)
      && forall k: nat :: k < |names| ==>
           SymName(v.syms[k], v.strtab) == names[k] && HashOf(v.syms, v.strtab, k) == HashesOf(names)[k]
  {
    hide VisitOf, NameAt, SymName, Placed, Le32, HashSection;
    IsLookedInto(sh, file, i);
    var v := VisitOf(sh, file, i);
    var t := sh[sh[i].link];
    var str := sh[t.link];
    forall k: nat | k < |names| ensures SymName(v.syms[k], v.strtab) == names[k] {
      assert SymbolNamed(sh, file, i, k, names[k]);
      OneName(file, str.offset, str.size, Le32(file, t.offset + 24 * k), SymName(v.syms[k], v.strtab), names[k]);
    }
  }

  lemma PlacedIsListed(sh: seq<Shdr>, file: seq<Byte>, i: nat, names: seq<seq<Byte>>, k: nat)
    requires Linked(sh, file, i, names) && Le32(file, sh[i].offset + 4) <= k < |names|
    ensures var v := VisitOf(sh, file, i);
      && v.Look? && v.table.Laid() && v.table.Symndx() <= k < |v.syms| <= v.table.Symndx() + |v.table.Values()|
      && Listed(v.table, v.syms, v.strtab, k)
  {
    hide VisitOf, SymbolNamed, SymName, Le32, Le64, Hash, HashOf, HashesOf, Bit, Pow2, HashSection, Filter;
    hide Section.Chain, Section.Bucket, Section.FilterWord, Section.Laid, Section.Values;
    LinkedNames(sh, file, i, names);
    var v := VisitOf(sh, file, i);
    var t, h := v.table, HashesOf(names)[k];
    TableBytes(sh[i], file, 0);
    TableBytes(sh[i], file, h / 64 % t.Maskwords());
    TableBytes(sh[i], file, h % t.Buckets());
    TableBytes(sh[i], file, k - t.Symndx());
    var hashes := HashesOf(names);
    assert Placed(file, sh[i].offset, t.Buckets(), t.Symndx(), t.Maskwords(), t.Shift2(), hashes, k);
    assert t.Laid() && HashOf(v.syms, v.strtab, k) == h && Filtered(t, h);
    forall j: nat | j < |names| ensures BucketOf(t, v.syms, v.strtab, j) == hashes[j] % t.Buckets() {
      assert HashOf(v.syms, v.strtab, j) == hashes[j];
    }
  }

  /** A table linked in these bytes is well formed. */
  lemma LinkedIsWellFormed(sh: seq<Shdr>, file: seq<Byte>, i: nat, names: seq<seq<Byte>>)
    requires Linked(sh, file, i, names)
    ensures var v := VisitOf(sh, file, i);
      v.Look? && WellFormed(v.table, v.syms, v.strtab) && v.table.Symndx() == Le32(file, sh[i].offset + 4)
  {
    hide VisitOf, SymbolNamed, SymName, Le32, Placed, Listed, HashSection, Section.Laid, Section.Values;
    LinkedNames(sh, file, i, names);
    TableBytes(sh[i], file, 0);
    forall k: nat | Le32(file, sh[i].offset + 4) <= k < |names|
      ensures var v := VisitOf(sh, file, i);
        && v.table.Laid() && v.table.Symndx() <= k < |v.syms| <= v.table.Symndx() + |v.table.Values()|
        && Listed(v.table, v.syms, v.strtab, k)
    {
      PlacedIsListed(sh, file, i, names, k);
    }
  }

  /** Why a hash section cannot be looked into: its bytes or its string table's are missing (ERANGE), it is too small,
      or a link leads nowhere (ENOEXEC). */
  predicate Broken(sh: seq<Shdr>, file: seq<Byte>, i: nat, e: Errno) {
    i < |sh| && sh[i].kind == 0x6fff_fff6 &&
    if |file| < sh[i].offset + sh[i].size then e == ERANGE
    else if sh[i].size < 16 || |sh| <= sh[i].link then e == ENOEXEC
    else if Symbolless(sh, file, i) then false
    else
      var t := sh[sh[i].link];
      if |sh| <= t.link then e == ENOEXEC
      else |file| < sh[t.link].offset + sh[t.link].size && e == ERANGE
  }

  lemma FailsIff(sh: seq<Shdr>, file: seq<Byte>, i: nat, e: Errno)
    requires i < |sh|
    ensures VisitOf(sh, file, i) == Fail(e) <==> Broken(sh, file, i, e)
  {
  }

  // ----- what a search of such a file finds -----

  /** Every hash section links to a symbol table it indexes, or to one without symbols. */
  ghost predicate WellLinked(sh: seq<Shdr>, file: seq<Byte>) {
    forall i: nat :: i < |sh| && sh[i].kind == 0x6fff_fff6 ==>
      HashHeader(sh, file, i) && (Symbolless(sh, file, i) || exists names :: Linked(sh, file, i, names))
  }

  /** The hash section that header `f.section` describes indexes symbol `f.index`, which has the name. */
  ghost predicate Defines(sh: seq<Shdr>, file: seq<Byte>, f: Found, name: seq<Byte>) {
    && HashHeader(sh, file, f.section) && HasTables(sh, file, f.section)
    && Le32(file, sh[f.section].offset + 4) <= f.index && SymbolNamed(sh, file, f.section, f.index, name)
  }

  /** The first definition from section `i` on, or None when there is none. */
  ghost predicate FirstDefinition(sh: seq<Shdr>, file: seq<Byte>, i: nat, name: seq<Byte>, r: Option<Found>) {
    match r
    case None => forall f: Found :: i <= f.section ==> !Defines(sh, file, f, name)
    case Some(f) =>
      && i <= f.section && Defines(sh, file, f, name)
      && forall g: Found :: i <= g.section && Defines(sh, file, g, name) ==>
           f.section < g.section || (f.section == g.section && f.index <= g.index)
  }

  /** What one table defines is what a linear search of it finds. */
  lemma SectionDefines(sh: seq<Shdr>, file: seq<Byte>, i: nat, names: seq<seq<Byte>>, f: Found, name: seq<Byte>)
    requires Linked(sh, file, i, names) && f.section == i
    ensures var v := VisitOf(sh, file, i);
      && v.Look? && v.table.Laid() && v.table.Symndx() <= |v.syms| == |names|
      && (Defines(sh, file, f, name) <==>
            v.table.Symndx() <= f.index < |v.syms| && SymName(v.syms[f.index], v.strtab) == name)
  {
    hide VisitOf, NameAt, SymName, Placed, Le32, WellFormed, HashSection;
    LinkedNames(sh, file, i, names);
    LinkedIsWellFormed(sh, file, i, names);
    var v := VisitOf(sh, file, i);
    LaidIfWellFormed(v.table, v.syms, v.strtab);
    if Defines(sh, file, f, name) {
      var t := sh[sh[i].link];
      OneName(file, sh[t.link].offset, sh[t.link].size, Le32(file, t.offset + 24 * f.index), name, names[f.index]);
    }
  }

  lemma SymbollessIsSkipped(sh: seq<Shdr>, file: seq<Byte>, i: nat)
    requires HashHeader(sh, file, i) && Symbolless(sh, file, i)
    ensures VisitOf(sh, file, i) == Skip && !HasTables(sh, file, i)
  {
  }

  lemma OthersAreSkipped(sh: seq<Shdr>, file: seq<Byte>, i: nat)
    requires i < |sh| && sh[i].kind != 0x6fff_fff6
    ensures VisitOf(sh, file, i) == Skip && !HashHeader(sh, file, i)
  {
  }

  /** On a well-linked file the search succeeds, with the first symbol of that name in the first section to define
      one. */
  lemma {:induction false} SearchFindsFirst(name: seq<Byte>, sh: seq<Shdr>, file: seq<Byte>, i: nat)
    requires WellLinked(sh, file) && i <= |sh|
    ensures Search(name, sh, file, i).Ok? && FirstDefinition(sh, file, i, name, Search(name, sh, file, i).value)
    decreases |sh| - i
  {
    hide VisitOf, Defines, Linked, Symbolless, SymName, LinearSearch, HashHeader;
    if i == |sh| {
      NoneBeyond(sh, file, name);
    } else {
      SearchFindsFirst(name, sh, file, i + 1);
      if sh[i].kind != 0x6fff_fff6 {
        OthersAreSkipped(sh, file, i);
        NoDefinition(sh, file, i, name);
      } else if Symbolless(sh, file, i) {
        SymbollessIsSkipped(sh, file, i);
        NoDefinition(sh, file, i, name);
      } else {
        var names :| Linked(sh, file, i, names);
        forall f: Found | f.section == i
          ensures var v := VisitOf(sh, file, i);
            && v.Look? && v.table.Laid() && v.table.Symndx() <= |v.syms|
            && (Defines(sh, file, f, name) <==>
                  v.table.Symndx() <= f.index < |v.syms| && SymName(v.syms[f.index], v.strtab) == name)
        {
          SectionDefines(sh, file, i, names, f, name);
        }
        SectionDefines(sh, file, i, names, Found(i, 0), name);
        SearchStep(name, sh, file, i);
      }
    }
  }

  lemma NoneBeyond(sh: seq<Shdr>, file: seq<Byte>, name: seq<Byte>)
    ensures forall f: Found :: |sh| <= f.section ==> !Defines(sh, file, f, name)
  {
  }

  lemma NoDefinition(sh: seq<Shdr>, file: seq<Byte>, i: nat, name: seq<Byte>)
    requires HashHeader(sh, file, i) ==> !HasTables(sh, file, i)
    ensures forall f: Found :: f.section == i ==> !Defines(sh, file, f, name)
  {
  }

  lemma SearchStep(name: seq<Byte>, sh: seq<Shdr>, file: seq<Byte>, i: nat)
    requires i < |sh| && VisitOf(sh, file, i).Look? && Search(name, sh, file, i + 1).Ok?
    requires FirstDefinition(sh, file, i + 1, name, Search(name, sh, file, i + 1).value)
    requires var v := VisitOf(sh, file, i);
      && v.table.Laid() && v.table.Symndx() <= |v.syms|
      && forall f: Found :: f.section == i ==> (Defines(sh, file, f, name) <==>
           v.table.Symndx() <= f.index < |v.syms| && SymName(v.syms[f.index], v.strtab) == name)
    ensures Search(name, sh, file, i).Ok? && FirstDefinition(sh, file, i, name, Search(name, sh, file, i).value)
  {
    hide VisitOf, Defines, SymName, LinearSearch;
    var v := VisitOf(sh, file, i);
    var found := LinearSearch(name, v.syms, v.strtab, v.table.Symndx());
    if found.Some? {
      assert Defines(sh, file, Found(i, found.value), name);
    }
  }

  lemma WellLinkedIsWellFormed(sh: seq<Shdr>, file: seq<Byte>)
    requires WellLinked(sh, file)
    ensures AllWellFormed(sh, file)
  {
    hide VisitOf, Linked, WellFormed, Symbolless, HashHeader;
    forall i: nat | i < |sh| && VisitOf(sh, file, i).Look?
      ensures var v := VisitOf(sh, file, i); WellFormed(v.table, v.syms, v.strtab)
    {
      if sh[i].kind != 0x6fff_fff6 {
        OthersAreSkipped(sh, file, i);
      } else if Symbolless(sh, file, i) {
        SymbollessIsSkipped(sh, file, i);
      } else {
        var names :| Linked(sh, file, i, names);
        LinkedIsWellFormed(sh, file, i, names);
      }
    }
  }

  /** Look into the hash sections in order; asked only of files in which no lookup of the name is endless. */
  method FindSymbol(name: seq<Byte>, sh: seq<Shdr>, file: seq<Byte>) returns (r: Result<Option<Found>>)
    requires forall i: nat :: i < |sh| ==> !EndlessVisit(name, sh, file, i)
    ensures r.Ok? && r.value.Some? ==> HasName(name, sh, file, r.value.value)
    ensures r.Err? ==> exists i: nat :: Broken(sh, file, i, r.error)
    ensures r.Ok? ==>
      forall i: nat, e: Errno :: (r.value.Some? ==> i <= r.value.value.section) ==> !Broken(sh, file, i, e)
    ensures AllWellFormed(sh, file) ==> r == Search(name, sh, file, 0)
    ensures WellLinked(sh, file) ==> r.Ok? && FirstDefinition(sh, file, 0, name, r.value)
  {
    hide WellLinked, FirstDefinition, VisitOf, Broken, WellFormed, Loops, Hash, LinearSearch, SymName, HashSection,
         SymbolsFor, InFile;
    if WellLinked(sh, file) {
      WellLinkedIsWellFormed(sh, file);
      SearchFindsFirst(name, sh, file, 0);
    }
    for i := 0 to |sh|
      invariant AllWellFormed(sh, file) ==> Search(name, sh, file, 0) == Search(name, sh, file, i)
      invariant forall j: nat, e: Errno :: j < i ==> !Broken(sh, file, j, e)
    {
      forall e: Errno ensures VisitOf(sh, file, i) == Fail(e) <==> Broken(sh, file, i, e) {
        FailsIff(sh, file, i, e);
      }
      assert !EndlessVisit(name, sh, file, i);
      match VisitOf(sh, file, i) {
        case Skip =>
        case Fail(e) => return Err(e);
        case Look(t, syms, strtab) =>
          var found := Lookup(name, t, syms, strtab);
          LaidIfWellFormed(t, syms, strtab);
          if found.Some? {
            return Ok(Some(Found(i, found.value)));
          }
      }
    }
    NothingBroken(sh, file);
    return Ok(None);
  }

  lemma NothingBroken(sh: seq<Shdr>, file: seq<Byte>)
    ensures forall i: nat, e: Errno :: |sh| <= i ==> !Broken(sh, file, i, e)
  {
  }
}
