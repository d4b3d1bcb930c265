/** Looking files up in a cpio archive in the "newc" format. */
module Cpio {
  import opened Bits
  import opened Words

  const HEADER_SIZE: nat := 110
  const MAGIC: seq<byte> := [48, 55, 48, 55, 48, 49]                          // 070701
  const TRAILER: seq<byte> := [84, 82, 65, 73, 76, 69, 82, 33, 33, 33]        // TRAILER!!!

  // ---------------------------------------------------------------- the format

  /** A file of the archive.  `before`, `between` and `after` are the header fields that the
      lookups do not read, in the places where the format has them. */
  datatype Entry = Entry(name: seq<byte>, data: seq<byte>, before: seq<byte>, between: seq<byte>, after: seq<byte>,
                         upper: bool)

  predicate WellFormed(e: Entry) {
    && |e.before| == 48 && |e.between| == 32 && |e.after| == 8
    && 0 !in e.name && |e.name| < 256 && |e.data| + 3 < WORD
  }

  function Padding(n: nat): (z: seq<byte>)
    ensures |z| == (n + 3) / 4 * 4 - n
  {
    seq((n + 3) / 4 * 4 - n, _ => 0)
  }

  function Header(e: Entry): (h: seq<byte>)
    requires WellFormed(e)
    ensures |h| == HEADER_SIZE
  {
    MAGIC
    + (e.before + (HexDigits(|e.data|, 8, e.upper) + (e.between + (HexDigits(|e.name| + 1, 8, e.upper) + e.after))))
  }

  /** Header and name are padded to a multiple of four, and so are the contents. */
  function Encode(e: Entry): (r: seq<byte>)
    requires WellFormed(e)
  {
    Header(e) + ((e.name + [0] + Padding(HEADER_SIZE + |e.name| + 1)) + (e.data + Padding(|e.data|)))
  }

  /** The texts of the format, and the size fields of the trailer. */
  lemma FormatTexts()
    ensures MAGIC == Ascii("070701") && TRAILER == Ascii("TRAILER!!!")
  {
    hide Ascii;
  }

  lemma TrailerSizes()
    ensures HexDigits(0, 8, true) == Ascii("00000000") && HexDigits(11, 8, true) == Ascii("0000000B")
  {
    hide Ascii;
    var zeros := HexDigits(0, 7, true);
    assert zeros == Ascii("0000000");
  }

  /** The trailer of an archive, field by field. */
  lemma TrailerBytes(e: Entry)
    requires WellFormed(e) && e.name == TRAILER && e.data == [] && e.upper
    ensures Encode(e) == MAGIC + e.before + HexDigits(0, 8, true) + e.between + HexDigits(11, 8, true) + e.after
                         + TRAILER + [0, 0, 0, 0]
  {
    hide HexDigits, Header, Encode;
    TrailerHeader(e);
    TrailerName(e);
  }

  lemma TrailerHeader(e: Entry)
    requires WellFormed(e) && |e.name| == 10 && e.data == [] && e.upper
    ensures Header(e) == MAGIC + e.before + HexDigits(0, 8, true) + e.between + HexDigits(11, 8, true) + e.after
  {
    hide HexDigits;
    Regroup(MAGIC, e.before, HexDigits(0, 8, true), e.between, HexDigits(11, 8, true), e.after);
  }

  lemma TrailerName(e: Entry)
    requires WellFormed(e) && |e.name| == 10 && e.data == []
    ensures Encode(e) == Header(e) + e.name + [0, 0, 0, 0]
  {
    hide Header;
    PadOfTrailer();
    assert (e.name + [0] + [0, 0, 0]) + ([] + []) == e.name + [0, 0, 0, 0];
  }

  lemma PadOfTrailer()
    ensures Padding(HEADER_SIZE + 11) == [0, 0, 0] && Padding(0) == []
  {
  }

  lemma Regroup(a: seq<byte>, b: seq<byte>, c: seq<byte>, d: seq<byte>, e: seq<byte>, f: seq<byte>)
    ensures a + (b + (c + (d + (e + f)))) == a + b + c + d + e + f
  {
  }

  ghost predicate At(mem: seq<byte>, p: nat, bytes: seq<byte>) {
    p + |bytes| <= |mem| && mem[p..p + |bytes|] == bytes
  }

  /** From `p` on there are the files `es`, and then the trailer or something that is not a
      cpio header. */
  ghost predicate Archive(mem: seq<byte>, p: nat, es: seq<Entry>)
    decreases |es|
  {
    if es == [] then
      (exists t :: WellFormed(t) && t.name == TRAILER && At(mem, p, Encode(t)))
      || (p + 6 <= |mem| && mem[p..p + 6] != MAGIC)
    else
      && WellFormed(es[0]) && es[0].name != TRAILER && At(mem, p, Encode(es[0]))
      && Archive(mem, p + |Encode(es[0])|, es[1..])
  }

  /** The first file with the given name, if there is one. */
  function FirstNamed(es: seq<Entry>, name: seq<byte>): (i: nat)
    ensures i <= |es|
    ensures i < |es| ==> es[i].name == name
    ensures forall j :: 0 <= j < i ==> es[j].name != name
  {
    if es == [] || es[0].name == name then 0 else 1 + FirstNamed(es[1..], name)
  }

  // ---------------------------------------------------------------- reading one header

  /** The C string at the start of a buffer. */
  function CString(b: seq<byte>): seq<byte> {
    if b == [] || b[0] == 0 then [] else [b[0]] + CString(b[1..])
  }

  lemma {:induction false} CStringOfName(name: seq<byte>)
    requires 0 !in name
    ensures CString(name + [0]) == name
  {
    if name != [] {
      assert (name + [0])[1..] == name[1..] + [0];
      CStringOfName(name[1..]);
    }
  }

  lemma HeaderFields(e: Entry)
    requires WellFormed(e)
    ensures Header(e)[0..6] == MAGIC
    ensures Header(e)[54..62] == HexDigits(|e.data|, 8, e.upper)
    ensures Header(e)[94..102] == HexDigits(|e.name| + 1, 8, e.upper)
  {
  }

  /** The pieces of an encoded file, at the sums the code computes. */
  lemma EncodedPieces(e: Entry)
    requires WellFormed(e)
    ensures var r, n := Encode(e), |e.name| + 1;
      var a := Align(HEADER_SIZE + n, 4);
      && |r| == a + Align(|e.data|, 4) && HEADER_SIZE + n <= a && a + |e.data| <= |r|
      && r[0..HEADER_SIZE] == Header(e) && r[HEADER_SIZE..HEADER_SIZE + n] == e.name + [0]
      && r[a..a + |e.data|] == e.data
  {
    hide Header, Align;
    var n := |e.name| + 1;
    AlignFour(HEADER_SIZE + n);
    AlignFour(|e.data|);
    Pieces(Header(e), e.name + [0], Padding(HEADER_SIZE + n), e.data, Padding(|e.data|));
  }

  lemma Pieces(h: seq<byte>, z: seq<byte>, p: seq<byte>, d: seq<byte>, q: seq<byte>)
    ensures var r, a := h + ((z + p) + (d + q)), |h| + |z| + |p|;
      && |r| == a + |d| + |q| && r[0..|h|] == h && r[|h|..|h| + |z|] == z && r[a..a + |d|] == d
  {
    var r, a := h + ((z + p) + (d + q)), |h| + |z| + |p|;
    assert r == (h + (z + p)) + (d + q);
    assert r[a..] == d + q;
  }

  /** Where the pieces of a file lie in memory. */
  lemma EntryLayout(mem: seq<byte>, p: nat, e: Entry)
    requires WellFormed(e) && At(mem, p, Encode(e))
    ensures At(mem, p, Header(e)) && At(mem, p + HEADER_SIZE, e.name + [0])
    ensures At(mem, p + Align(HEADER_SIZE + |e.name| + 1, 4), e.data)
    ensures |Encode(e)| == Align(HEADER_SIZE + |e.name| + 1, 4) + Align(|e.data|, 4)
    ensures Align(HEADER_SIZE + |e.name| + 1, 4) >= HEADER_SIZE
  {
    hide Header, Align, Encode;
    EncodedPieces(e);
    var r, n := Encode(e), |e.name| + 1;
    var a := Align(HEADER_SIZE + n, 4);
    Slice(mem, p, r, 0, HEADER_SIZE);
    Slice(mem, p, r, HEADER_SIZE, HEADER_SIZE + n);
    Slice(mem, p, r, a, a + |e.data|);
  }

  /** The magic, the two sizes, and the name, as the code reads them at `header`. */
  method ReadHeader(mem: seq<byte>, header: nat, ghost e: Entry) returns (nameSize: nat, fileSize: nat, name: seq<byte>)
    requires WellFormed(e) && At(mem, header, Encode(e))
    ensures header + HEADER_SIZE + nameSize <= |mem|
    ensures nameSize == |e.name| + 1 && fileSize == |e.data| && name == e.name
  {
    hide Header, Encode, HexSum, HexDigits;
    EntryLayout(mem, header, e);
    HeaderFields(e);
    Slice(mem, header, Header(e), 54, 62);
    Slice(mem, header, Header(e), 94, 102);
    EightDigits(|e.name| + 1, e.upper);
    EightDigits(|e.data|, e.upper);
    var nameField, fileField := mem[header + 94..header + 102], mem[header + 54..header + 62];
    assert nameField[..8] == nameField && fileField[..8] == fileField;
    nameSize := HexToUint(nameField, 8);
    fileSize := HexToUint(fileField, 8);
    CStringOfName(e.name);
    name := CString(mem[header + HEADER_SIZE..header + HEADER_SIZE + nameSize]);
  }

  /** The name at the front of an archive, told from the end of it. */
  lemma FrontOfArchive(mem: seq<byte>, p: nat, es: seq<Entry>)
    requires Archive(mem, p, es)
    ensures p + 6 <= |mem|
    ensures es != [] ==>
      mem[p..p + 6] == MAGIC && WellFormed(es[0]) && At(mem, p, Encode(es[0])) && es[0].name != TRAILER
    ensures es == [] && mem[p..p + 6] == MAGIC ==>
      exists t :: WellFormed(t) && t.name == TRAILER && At(mem, p, Encode(t))
  {
    hide Encode, Header;
    if es != [] {
      MagicFirst(mem, p, es[0]);
    } else if t :| WellFormed(t) && t.name == TRAILER && At(mem, p, Encode(t)) {
      MagicFirst(mem, p, t);
    }
  }

  lemma MagicFirst(mem: seq<byte>, p: nat, e: Entry)
    requires WellFormed(e) && At(mem, p, Encode(e))
    ensures p + 6 <= |mem| && mem[p..p + 6] == MAGIC
  {
    hide Encode, Header;
    EntryLayout(mem, p, e);
    HeaderFields(e);
    Slice(mem, p, Header(e), 0, 6);
  }

  // ---------------------------------------------------------------- the walk

  /** The common loop of the lookups: the header of the first file named `target`, with its
      sizes, or nothing when the archive ends first. */
  method Find(mem: seq<byte>, cpioAddr: nat, target: seq<byte>, ghost es: seq<Entry>)
    returns (found: bool, header: nat, nameSize: nat, fileSize: nat)
    requires Archive(mem, cpioAddr, es)
    ensures found <==> FirstNamed(es, target) < |es|
    ensures found ==> var e := es[FirstNamed(es, target)];
      WellFormed(e) && At(mem, header, Encode(e)) && nameSize == |e.name| + 1 && fileSize == |e.data|
  {
    hide Encode, Header, Archive, HexSum;
    header, nameSize, fileSize, found := cpioAddr, 0, 0, false;
    ghost var k := 0;
    assert es[0..] == es;
    while true
      invariant k <= |es| && Archive(mem, header, es[k..])
      invariant FirstNamed(es, target) == k + FirstNamed(es[k..], target)
      decreases |es| - k
    {
      FrontOfArchive(mem, header, es[k..]);
      if mem[header..header + 6] != MAGIC {
        return;
      }
      ghost var e := if k < |es| then es[k] else TrailerEntry(mem, header);
      var name: seq<byte>;
      nameSize, fileSize, name := ReadHeader(mem, header, e);
      if name == TRAILER {
        return;
      }
      if name == target {
        found := true;
        return;
      }
      EntryLayout(mem, header, e);
      NextEntry(mem, header, es[k..]);
      assert es[k..][1..] == es[k + 1..];
      var namePart := Align(HEADER_SIZE + nameSize, 4) - HEADER_SIZE;
      header := header + HEADER_SIZE + namePart + Align(fileSize, 4);
      k := k + 1;
    }
  }

  ghost function TrailerEntry(mem: seq<byte>, p: nat): (t: Entry)
    requires exists t :: WellFormed(t) && t.name == TRAILER && At(mem, p, Encode(t))
    ensures WellFormed(t) && t.name == TRAILER && At(mem, p, Encode(t))
  {
    var t :| WellFormed(t) && t.name == TRAILER && At(mem, p, Encode(t)); t
  }

  lemma NextEntry(mem: seq<byte>, p: nat, es: seq<Entry>)
    requires Archive(mem, p, es) && es != []
    ensures WellFormed(es[0]) && Archive(mem, p + |Encode(es[0])|, es[1..])
  {
    hide Encode;
  }

  /** `cpio_get_file_size`: 0 when there is no such file. */
  method GetFileSize(mem: seq<byte>, cpioAddr: nat, target: seq<byte>, ghost es: seq<Entry>) returns (size: nat)
    requires Archive(mem, cpioAddr, es)
    ensures size == if FirstNamed(es, target) < |es| then |es[FirstNamed(es, target)].data| else 0
  {
    hide Archive, Encode;
    var found, header, nameSize, fileSize := Find(mem, cpioAddr, target, es);
    size := if found then fileSize else 0;
  }

  /** `cpio_get_exec`: the address of the contents of the first file with that name, and what
      is copied out from there. */
  method GetExec(mem: seq<byte>, cpioAddr: nat, target: seq<byte>, ghost es: seq<Entry>)
    returns (addr: nat, copied: seq<byte>)
    requires Archive(mem, cpioAddr, es) && FirstNamed(es, target) < |es|
    ensures var e := es[FirstNamed(es, target)]; At(mem, addr, e.data) && copied == e.data
  {
    hide Archive, Encode, Align;
    var found, header, nameSize, fileSize := Find(mem, cpioAddr, target, es);
    EntryLayout(mem, header, es[FirstNamed(es, target)]);
    addr := header + Align(HEADER_SIZE + nameSize, 4);
    copied := mem[addr..addr + fileSize];
  }

  /** The two lookups agree: the size is the length of what lies at the address. */
  method LoadFile(mem: seq<byte>, cpioAddr: nat, target: seq<byte>, ghost es: seq<Entry>) returns (contents: seq<byte>)
    requires Archive(mem, cpioAddr, es)
    ensures contents == if FirstNamed(es, target) < |es| then es[FirstNamed(es, target)].data else []
  {
    hide Archive, Encode;
    var size := GetFileSize(mem, cpioAddr, target, es);
    contents := [];
    if size != 0 {
      var addr, copied := GetExec(mem, cpioAddr, target, es);
      contents := mem[addr..addr + size];
    }
  }
}
