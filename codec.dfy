/** The binary design file of SaveLoadTools: two big-endian 32-bit
    integers, N and airPadding, then the design packed eight cells to a
    byte, least significant bit first, along z. Because N is a multiple of
    8, the runs (x, y, z..z+7), taken in x, y, z order, are exactly the
    consecutive blocks of eight flat indices, so byte b of the body holds
    cells 8b .. 8b+7. Streams are modelled as the byte sequences they carry. */
module Codec {
  import opened Wrappers
  import opened Lattice
  import opened VoxelGrid

  // ---------------------------------------------------------------------------
  // One byte

  /** The byte for eight consecutive cells: cell k in bit k. */
  function PackByte(c: seq<Byte>): Byte
    requires |c| == 8
  {
    c[0] | (c[1] << 1) | (c[2] << 2) | (c[3] << 3) | (c[4] << 4) | (c[5] << 5) | (c[6] << 6) | (c[7] << 7)
  }

  /** `(byte)((data >> k) & 1)`: bit k of a byte read back. */
  function UnpackBit(d: Byte, k: nat): (b: Byte)
    requires k < 8
    ensures b == 0 || b == 1
  {
    (d >> k) & 1
  }

  /** The eight cells a byte is read back as. */
  function Unpack(d: Byte): (c: seq<Byte>)
    ensures |c| == 8 && forall k :: 0 <= k < 8 ==> c[k] == UnpackBit(d, k)
  {
    seq(8, k requires 0 <= k < 8 => UnpackBit(d, k))
  }

  /** Reading back a packed byte gives its eight cells, when each is 0 or 1. */
  lemma UnpackPackByte(c: seq<Byte>)
    requires |c| == 8 && forall k :: 0 <= k < 8 ==> c[k] == 0 || c[k] == 1
    ensures Unpack(PackByte(c)) == c
  {
    var c0, c1, c2, c3, c4, c5, c6, c7 := c[0], c[1], c[2], c[3], c[4], c[5], c[6], c[7];
    var d := PackByte(c);
    assert d == c0 | (c1 << 1) | (c2 << 2) | (c3 << 3) | (c4 << 4) | (c5 << 5) | (c6 << 6) | (c7 << 7);
    assert (d >> 0) & 1 == c0 && (d >> 1) & 1 == c1 && (d >> 2) & 1 == c2 && (d >> 3) & 1 == c3;
    assert (d >> 4) & 1 == c4 && (d >> 5) & 1 == c5 && (d >> 6) & 1 == c6 && (d >> 7) & 1 == c7;
  }

  // ---------------------------------------------------------------------------
  // Java's int arithmetic on bytes

  /** A Java `byte` widened to `int`, as 32 bits. */
  function SignExtend(d: Byte): bv32 {
    if d & 0x80 == 0 then d as bv32 else d as bv32 | 0xFFFF_FF00
  }

  /** Java's `>>` on `int`: the sign bit is shifted in. */
  function ShiftRightSigned(v: bv32, k: nat): bv32
    requires k < 32
  {
    if v & 0x8000_0000 == 0 then v >> k else (v >> k) | !((0xFFFF_FFFF as bv32) >> k)
  }

  /** The low byte of an `int`, as the `(byte)` cast keeps it. */
  function LowByte(v: bv32): Byte {
    (v & 0xFF) as Byte
  }

  /** The writer's expression, in `int` arithmetic and cast to `byte`. */
  function PackByteAsInt(c: seq<Byte>): Byte
    requires |c| == 8
  {
    LowByte(SignExtend(c[0]) | (SignExtend(c[1]) << 1) | (SignExtend(c[2]) << 2) | (SignExtend(c[3]) << 3) |
      (SignExtend(c[4]) << 4) | (SignExtend(c[5]) << 5) | (SignExtend(c[6]) << 6) | (SignExtend(c[7]) << 7))
  }

  /** The low byte of a widened cell shifted left by k is the cell shifted by k. */
  lemma LowBytesShifted(c0: Byte, c1: Byte, c2: Byte, c3: Byte, c4: Byte, c5: Byte, c6: Byte, c7: Byte)
    ensures LowByte(SignExtend(c0)) == c0 && LowByte(SignExtend(c1) << 1) == c1 << 1
    ensures LowByte(SignExtend(c2) << 2) == c2 << 2 && LowByte(SignExtend(c3) << 3) == c3 << 3
    ensures LowByte(SignExtend(c4) << 4) == c4 << 4 && LowByte(SignExtend(c5) << 5) == c5 << 5
    ensures LowByte(SignExtend(c6) << 6) == c6 << 6 && LowByte(SignExtend(c7) << 7) == c7 << 7
  {
  }

  /** The low byte of an `or` of eight `int`s is the `or` of their low bytes. */
  lemma LowByteOfOr(e0: bv32, e1: bv32, e2: bv32, e3: bv32, e4: bv32, e5: bv32, e6: bv32, e7: bv32,
                    c0: Byte, c1: Byte, c2: Byte, c3: Byte, c4: Byte, c5: Byte, c6: Byte, c7: Byte)
    requires LowByte(e0) == c0 && LowByte(e1) == c1 << 1 && LowByte(e2) == c2 << 2 && LowByte(e3) == c3 << 3
    requires LowByte(e4) == c4 << 4 && LowByte(e5) == c5 << 5 && LowByte(e6) == c6 << 6 && LowByte(e7) == c7 << 7
    ensures LowByte(e0 | e1 | e2 | e3 | e4 | e5 | e6 | e7) ==
      c0 | (c1 << 1) | (c2 << 2) | (c3 << 3) | (c4 << 4) | (c5 << 5) | (c6 << 6) | (c7 << 7)
  {
  }

  /** Widening the cells to `int` does not change the byte written. */
  lemma PackByteIgnoresSignExtension(c: seq<Byte>)
    requires |c| == 8
    ensures PackByteAsInt(c) == PackByte(c)
  {
    var c0, c1, c2, c3, c4, c5, c6, c7 := c[0], c[1], c[2], c[3], c[4], c[5], c[6], c[7];
    LowBytesShifted(c0, c1, c2, c3, c4, c5, c6, c7);
    LowByteOfOr(SignExtend(c0), SignExtend(c1) << 1, SignExtend(c2) << 2, SignExtend(c3) << 3,
      SignExtend(c4) << 4, SignExtend(c5) << 5, SignExtend(c6) << 6, SignExtend(c7) << 7,
      c0, c1, c2, c3, c4, c5, c6, c7);
  }

  /** The reader's expression, in `int` arithmetic: `(data >> k) & 1` on the
      sign-extended byte. */
  function UnpackBitAsInt(d: Byte, k: nat): Byte
    requires k < 8
  {
    LowByte(ShiftRightSigned(SignExtend(d), k) & 1)
  }

  /** Sign extension of the byte read does not affect bits 0 to 7. */
  lemma UnpackBitIgnoresSignExtension(d: Byte, k: nat)
    requires k < 8
    ensures UnpackBitAsInt(d, k) == UnpackBit(d, k)
  {
    if k == 0 {} else if k == 1 {} else if k == 2 {} else if k == 3 {}
    else if k == 4 {} else if k == 5 {} else if k == 6 {} else {}
  }

  // ---------------------------------------------------------------------------
  // The header

  /** A Java `int`, as its 32 bits in two's complement. */
  function IntBits(i: int): bv32
    requires -0x8000_0000 <= i < 0x8000_0000
  {
    if i >= 0 then i as bv32 else (i + 0x1_0000_0000) as bv32
  }

  /** `DataOutputStream.writeInt`: four bytes, most significant first. */
  function IntBytes(v: bv32): (b: seq<Byte>)
    ensures |b| == 4
  {
    [(v >> 24) as Byte, ((v >> 16) & 0xFF) as Byte, ((v >> 8) & 0xFF) as Byte, (v & 0xFF) as Byte]
  }

  /** `DataInputStream.readInt` on four bytes. Its result is compared with the
      configuration's `int` as 32 bits, which is the same comparison. */
  function BytesInt(b: seq<Byte>): bv32
    requires |b| == 4
  {
    ((b[0] as bv32) << 24) | ((b[1] as bv32) << 16) | ((b[2] as bv32) << 8) | (b[3] as bv32)
  }

  /** Reading an `int` back gives the `int` written. */
  lemma HeaderRoundTrip(v: bv32)
    ensures BytesInt(IntBytes(v)) == v
  {
  }

  // ---------------------------------------------------------------------------
  // The body

  /** The body for a design: one byte per run of eight cells (the designs
      written have a multiple of 8 cells, so no cells are left over). */
  function EncodeBody(s: seq<Byte>): (b: seq<Byte>)
    ensures |b| == |s| / 8
  {
    seq(|s| / 8, j requires 0 <= j < |s| / 8 => PackByte(s[8 * j .. 8 * j + 8]))
  }

  /** The cells a body is read back as: eight per byte. */
  function DecodeBody(b: seq<Byte>): (s: seq<Byte>)
    ensures |s| == 8 * |b|
  {
    seq(8 * |b|, i requires 0 <= i < 8 * |b| => UnpackBit(b[i / 8], i % 8))
  }

  /** Writing a design of 0/1 cells and reading the body back gives the design. */
  lemma DecodeEncodeBody(s: seq<Byte>)
    requires |s| % 8 == 0 && Binary(s)
    ensures DecodeBody(EncodeBody(s)) == s
  {
    var b := EncodeBody(s);
    forall i | 0 <= i < |s| ensures DecodeBody(b)[i] == s[i] {
      var j := i / 8;
      var c := s[8 * j .. 8 * j + 8];
      UnpackPackByte(c);
      assert Unpack(b[j]) == c;
      assert UnpackBit(b[j], i % 8) == c[i % 8];
    }
  }

  /** The body of the first b + 1 runs extends that of the first b runs by one byte. */
  lemma EncodeBodySnoc(s: seq<Byte>, b: nat)
    requires 8 * b + 8 <= |s|
    ensures EncodeBody(s[..8 * (b + 1)]) == EncodeBody(s[..8 * b]) + [PackByte(s[8 * b .. 8 * b + 8])]
  {
    assert 8 * (b + 1) == 8 * b + 8;
    var l, r := EncodeBody(s[..8 * b + 8]), EncodeBody(s[..8 * b]) + [PackByte(s[8 * b .. 8 * b + 8])];
    forall j | 0 <= j < |l| ensures l[j] == r[j] {
      assert s[..8 * b + 8][8 * j .. 8 * j + 8] == s[8 * j .. 8 * j + 8];
      if j < b {
        assert s[..8 * b][8 * j .. 8 * j + 8] == s[8 * j .. 8 * j + 8];
      }
    }
  }

  lemma DecodeBodySnoc(b: seq<Byte>, d: Byte)
    ensures DecodeBody(b + [d]) == DecodeBody(b) + Unpack(d)
  {
    var l, r := DecodeBody(b + [d]), DecodeBody(b) + Unpack(d);
    forall i | 0 <= i < |l| ensures l[i] == r[i] {
      if i < 8 * |b| {
        assert (b + [d])[i / 8] == b[i / 8];
      } else {
        assert i / 8 == |b|;
      }
    }
  }

  // ---------------------------------------------------------------------------
  // Runs of eight cells along z

  /** With N = 8q the design splits into N·N·q whole bytes. */
  lemma CellsFillBytes(n: int, q: int)
    requires 0 < n && n == 8 * q
    ensures n * n * n == 8 * (n * n * q) && 0 < n * n * q
    ensures (n * n * n) % 8 == 0 && (n * n * n) / 8 == n * n * q
  {
    MulNonNegative(n, n);
    var t := n * n * q;
    assert n * n * n == 8 * t;
    DivModUnique(n * n * n, 8, t, 0);
  }

  /** A run that starts inside a row of 8q cells ends inside it. */
  lemma RunFits(w: int, q: int)
    requires 8 * w < 8 * q
    ensures 8 * w + 8 <= 8 * q
  {
  }

  /** With N a multiple of 8 a run (x, y, 8w) starts at a multiple of 8. */
  lemma RunStart(n: int, x: int, y: int, w: int)
    requires 0 < n && n % 8 == 0 && InLattice(n, x, y, 8 * w)
    ensures Idx(n, x, y, 8 * w) % 8 == 0
  {
    var q := n / 8;
    var r := x * n + y;
    assert r * n == 8 * (r * q);
    DivModUnique(Idx(n, x, y, 8 * w), 8, r * q + w, 0);
  }

  /** Byte b of the body holds the cells of the run it stands for: bit k of
      the byte for run (x, y, 8w) is cell (x, y, 8w + k). */
  lemma EncodeBodyLayout(s: seq<Byte>, n: int, x: int, y: int, w: int, k: nat)
    requires IsDesign(s, n) && n % 8 == 0 && InLattice(n, x, y, 8 * w) && k < 8
    requires Binary(s)
    ensures |s| % 8 == 0 && 8 * w + k < n
    ensures 0 <= Idx(n, x, y, 8 * w) / 8 < |EncodeBody(s)|
    ensures UnpackBit(EncodeBody(s)[Idx(n, x, y, 8 * w) / 8], k) == At(s, n, x, y, 8 * w + k)
  {
    var q := n / 8;
    assert n == 8 * q;
    CellsFillBytes(n, q);
    RunFits(w, q);
    RunStart(n, x, y, w);
    var i := Idx(n, x, y, 8 * w);
    var j := i / 8;
    assert i == 8 * j;
    IdxDecode(n, x, y, 8 * w + 7);
    IdxDecode(n, x, y, 8 * w + k);
    assert Idx(n, x, y, 8 * w + k) == i + k;
    var c := s[i .. i + 8];
    forall m | 0 <= m < 8
      ensures c[m] == 0 || c[m] == 1
    {
      assert c[m] == s[i + m];
    }
    UnpackPackByte(c);
    assert EncodeBody(s)[j] == PackByte(c);
    assert c[k] == s[i + k];
  }

  // ---------------------------------------------------------------------------
  // Saving

  /** The file `saveCurrentHeatsinkAsBinary` writes, or None when N is not a
      multiple of 8 and it returns before opening a file. */
  function SavedFile(s: seq<Byte>, n: int, airPadding: int): Option<seq<Byte>>
    requires IsDesign(s, n) && ValidConfig(n, airPadding)
  {
    if n % 8 != 0 then None
    else
      CellsFillBytes(n, n / 8);
      Some(IntBytes(IntBits(n)) + IntBytes(IntBits(airPadding)) + EncodeBody(s))
  }

  /** The file holds a header of 8 bytes and N³/8 body bytes. */
  lemma SavedFileSize(s: seq<Byte>, n: int, airPadding: int)
    requires IsDesign(s, n) && ValidConfig(n, airPadding)
    ensures SavedFile(s, n, airPadding).Some? <==> n % 8 == 0
    ensures n % 8 == 0 ==> |SavedFile(s, n, airPadding).value| == 8 + n * n * (n / 8)
  {
    if n % 8 == 0 {
      CellsFillBytes(n, n / 8);
    }
  }

  /** The byte the writer emits for the run of eight cells at index i:
      `data |= cellEnabled[idx + k] << k`, computed on the sign-extended
      cells, is the packed run. */
  method PackRun(g: Grid, i: int) returns (data: Byte)
    requires g.Valid() && 0 <= i && i + 8 <= g.cellEnabled.Length
    ensures data == PackByte(g.cellEnabled[i .. i + 8])
  {
    var run := g.cellEnabled[i .. i + 8];
    data := PackByteAsInt(run);
    PackByteIgnoresSignExtension(run);
  }

  /** One `writeByte` of the writer: the byte of the next run of eight cells. */
  method WriteRun(g: Grid, body0: seq<Byte>) returns (body: seq<Byte>)
    requires g.Valid() && 8 * |body0| + 8 <= g.cellEnabled.Length
    requires body0 == EncodeBody(g.cellEnabled[..8 * |body0|])
    ensures |body| == |body0| + 1 && body == EncodeBody(g.cellEnabled[..8 * |body|])
  {
    var data := PackRun(g, 8 * |body0|);
    EncodeBodySnoc(g.cellEnabled[..], |body0|);
    assert g.cellEnabled[8 * |body0| .. 8 * |body0| + 8] == g.cellEnabled[..][8 * |body0| .. 8 * |body0| + 8];
    body := body0 + [data];
  }

  /** The z-run loop of the writer for one (x, y): the body written so far
      grows by the bytes of that row. */
  method WriteRow(g: Grid, x: int, y: int, body0: seq<Byte>) returns (body: seq<Byte>)
    requires g.Valid() && g.n % 8 == 0 && 0 <= x < g.n && 0 <= y < g.n
    requires 8 * |body0| == Idx(g.n, x, y, 0) <= g.cellEnabled.Length
    requires body0 == EncodeBody(g.cellEnabled[..8 * |body0|])
    ensures 8 * |body| == Idx(g.n, x, y, g.n) <= g.cellEnabled.Length
    ensures body == EncodeBody(g.cellEnabled[..8 * |body|])
  {
    var n := g.n;
    ghost var s := g.cellEnabled[..];
    ghost var q := n / 8;
    assert n == 8 * q;
    IdxBounds(n, x, y, n - 1);
    var start := Idx(n, x, y, 0);
    body := body0;
    var z := 0;
    ghost var w := 0;
    while z < n
      invariant 0 <= z <= n && z == 8 * w && 8 * |body| == start + z && start + n <= |s|
      invariant body == EncodeBody(s[..8 * |body|])
    {
      RunFits(w, q);
      body := WriteRun(g, body);
      z, w := z + 8, w + 1;
    }
  }

  /** The x and y loops of the writer: the body bytes in stream order. */
  method WriteBody(g: Grid) returns (body: seq<Byte>)
    requires g.Valid() && g.n % 8 == 0
    ensures |g.cellEnabled[..]| % 8 == 0 && body == EncodeBody(g.cellEnabled[..])
  {
    var n := g.n;
    ghost var s := g.cellEnabled[..];
    CellsFillBytes(n, n / 8);
    body := [];
    var x := 0;
    while x < n
      invariant 0 <= x <= n && 8 * |body| == Idx(n, x, 0, 0) <= |s|
      invariant body == EncodeBody(s[..8 * |body|])
    {
      var y := 0;
      while y < n
        invariant 0 <= y <= n && 8 * |body| == Idx(n, x, y, 0) <= |s|
        invariant body == EncodeBody(s[..8 * |body|])
      {
        body := WriteRow(g, x, y, body);
        RowEnds(n, x, y);
        y := y + 1;
      }
      RowEnds(n, x, y);
      x := x + 1;
    }
    RowEnds(n, x, 0);
    assert s[..8 * |body|] == s;
  }

  /** `saveCurrentHeatsinkAsBinary()`: the bytes written, header first. */
  method SaveCurrentHeatsinkAsBinary(g: Grid) returns (written: Option<seq<Byte>>)
    requires g.Valid()
    ensures written == SavedFile(g.cellEnabled[..], g.n, g.airPadding)
  {
    if g.n % 8 != 0 {
      return None;
    }
    var body := WriteBody(g);
    written := Some(IntBytes(IntBits(g.n)) + IntBytes(IntBits(g.airPadding)) + body);
  }

  // ---------------------------------------------------------------------------
  // Loading

  /** How `loadHeatsink` ends: the whole body read; the program exits on a
      header that does not match the configuration; or the file ends early,
      the exception is caught, and the cells read so far stay. */
  datatype LoadOutcome = Loaded | SizeMismatch | PaddingMismatch | Truncated

  /** The design after reading a body: as decoded from the body as far as
      it goes, the old design after that. */
  function ReadDesign(s: seq<Byte>, body: seq<Byte>): (r: seq<Byte>)
    requires |s| % 8 == 0
    ensures |r| == |s|
  {
    if |body| >= |s| / 8 then DecodeBody(body[..|s| / 8]) else DecodeBody(body) + s[8 * |body|..]
  }

  /** The outcome and the design `loadHeatsink` leaves, from the design
      before and the bytes of the file. */
  function LoadedDesign(s: seq<Byte>, n: int, airPadding: int, file: seq<Byte>): (r: (LoadOutcome, seq<Byte>))
    requires IsDesign(s, n) && ValidConfig(n, airPadding) && n % 8 == 0
    ensures |r.1| == |s|
  {
    CellsFillBytes(n, n / 8);
    if |file| < 4 then (Truncated, s)
    else if BytesInt(file[..4]) != IntBits(n) then (SizeMismatch, s)
    else if |file| < 8 then (Truncated, s)
    else if BytesInt(file[4..8]) != IntBits(airPadding) then (PaddingMismatch, s)
    else (if |file| - 8 >= |s| / 8 then Loaded else Truncated, ReadDesign(s, file[8..]))
  }

  /** Loading a saved design of 0/1 cells gives it back, whatever design was there before. */
  lemma LoadSavedFile(s: seq<Byte>, t: seq<Byte>, n: int, airPadding: int)
    requires IsDesign(s, n) && IsDesign(t, n) && ValidConfig(n, airPadding) && n % 8 == 0 && Binary(s)
    ensures LoadedDesign(t, n, airPadding, SavedFile(s, n, airPadding).value) == (Loaded, s)
  {
    CellsFillBytes(n, n / 8);
    var f := SavedFile(s, n, airPadding).value;
    var h1, h2, body := IntBytes(IntBits(n)), IntBytes(IntBits(airPadding)), EncodeBody(s);
    assert f == h1 + h2 + body;
    assert f[..4] == h1 && f[4..8] == h2 && f[8..] == body;
    HeaderRoundTrip(IntBits(n));
    HeaderRoundTrip(IntBits(airPadding));
    DecodeEncodeBody(s);
    assert body[..|t| / 8] == body;
  }

  /** A header that does not match the configuration stops the load before
      any cell is written. */
  lemma LoadRejectsForeignHeader(s: seq<Byte>, n: int, airPadding: int, file: seq<Byte>)
    requires IsDesign(s, n) && ValidConfig(n, airPadding) && n % 8 == 0 && |file| >= 8
    requires BytesInt(file[..4]) != IntBits(n) || BytesInt(file[4..8]) != IntBits(airPadding)
    ensures LoadedDesign(s, n, airPadding, file).0 == SizeMismatch || LoadedDesign(s, n, airPadding, file).0 == PaddingMismatch
    ensures LoadedDesign(s, n, airPadding, file).1 == s
  {
  }

  /** The eight bits the reader's `int` expressions give are the byte's bits. */
  lemma UnpackAsInt(d: Byte)
    ensures [UnpackBitAsInt(d, 0), UnpackBitAsInt(d, 1), UnpackBitAsInt(d, 2), UnpackBitAsInt(d, 3),
             UnpackBitAsInt(d, 4), UnpackBitAsInt(d, 5), UnpackBitAsInt(d, 6), UnpackBitAsInt(d, 7)] == Unpack(d)
  {
    UnpackBitIgnoresSignExtension(d, 0);
    UnpackBitIgnoresSignExtension(d, 1);
    UnpackBitIgnoresSignExtension(d, 2);
    UnpackBitIgnoresSignExtension(d, 3);
    UnpackBitIgnoresSignExtension(d, 4);
    UnpackBitIgnoresSignExtension(d, 5);
    UnpackBitIgnoresSignExtension(d, 6);
    UnpackBitIgnoresSignExtension(d, 7);
  }

  /** The statements for one byte: cells p .. p+7 from bits 0 .. 7. */
  method UnpackInto(g: Grid, p: int, data: Byte)
    requires g.Valid() && 0 <= p && p + 8 <= g.cellEnabled.Length
    modifies g.cellEnabled
    ensures g.cellEnabled[..] == old(g.cellEnabled[..p]) + Unpack(data) + old(g.cellEnabled[p + 8..])
  {
    ghost var o := g.cellEnabled[..];
    UnpackAsInt(data);
    WriteCell(g, p + 0, UnpackBitAsInt(data, 0));
    WriteCell(g, p + 1, UnpackBitAsInt(data, 1));
    WriteCell(g, p + 2, UnpackBitAsInt(data, 2));
    WriteCell(g, p + 3, UnpackBitAsInt(data, 3));
    WriteCell(g, p + 4, UnpackBitAsInt(data, 4));
    WriteCell(g, p + 5, UnpackBitAsInt(data, 5));
    WriteCell(g, p + 6, UnpackBitAsInt(data, 6));
    WriteCell(g, p + 7, UnpackBitAsInt(data, 7));
    WriteEight(o, p, Unpack(data));
  }

  /** One assignment `cellEnabled[i] = v`. */
  method WriteCell(g: Grid, i: int, v: Byte)
    requires 0 <= i < g.cellEnabled.Length
    modifies g.cellEnabled
    ensures g.cellEnabled[..] == old(g.cellEnabled[..])[i := v]
  {
    g.cellEnabled[i] := v;
  }

  /** Eight single updates at p .. p+7 replace that stretch of the sequence. */
  lemma WriteEight(o: seq<Byte>, p: int, c: seq<Byte>)
    requires 0 <= p && p + 8 <= |o| && |c| == 8
    ensures o[p := c[0]][p + 1 := c[1]][p + 2 := c[2]][p + 3 := c[3]][p + 4 := c[4]][p + 5 := c[5]][p + 6 := c[6]][p + 7 := c[7]]
      == o[..p] + c + o[p + 8..]
  {
    var l := o[p := c[0]][p + 1 := c[1]][p + 2 := c[2]][p + 3 := c[3]][p + 4 := c[4]][p + 5 := c[5]][p + 6 := c[6]][p + 7 := c[7]];
    var r := o[..p] + c + o[p + 8..];
    forall j | 0 <= j < |o|
      ensures l[j] == r[j]
    {
      if j < p {
      } else if j < p + 8 {
        assert r[j] == c[j - p];
      }
    }
  }

  /** One step of the reader: the decoded prefix grows by the eight cells of the next byte. */
  lemma ReadStep(s: seq<Byte>, body: seq<Byte>, b: nat, t: seq<Byte>)
    requires 8 * (b + 1) <= |s| && b < |body|
    requires t == DecodeBody(body[..b]) + s[8 * b..]
    ensures t[..8 * b] + Unpack(body[b]) + t[8 * b + 8..] == DecodeBody(body[..b + 1]) + s[8 * (b + 1)..]
  {
    assert body[..b + 1] == body[..b] + [body[b]];
    DecodeBodySnoc(body[..b], body[b]);
    assert t[..8 * b] == DecodeBody(body[..b]);
    assert t[8 * b + 8..] == s[8 * (b + 1)..];
  }

  /** The reader stops after b bytes, at the end of the design or of the body:
      what it has written then is what `ReadDesign` says. */
  lemma ReadStopsAt(s: seq<Byte>, body: seq<Byte>, b: int)
    requires |s| % 8 == 0 && 0 <= b <= |body| && 8 * b <= |s|
    requires 8 * b == |s| || b == |body|
    ensures (|body| >= |s| / 8) == (8 * b == |s|)
    ensures ReadDesign(s, body) == DecodeBody(body[..b]) + s[8 * b..]
  {
    if 8 * b == |s| {
      assert s[8 * b..] == [];
    } else {
      assert body[..b] == body;
    }
  }

  /** The z-run loop of the reader for one (x, y), `b0` the bytes of the
      body read so far: it reads the bytes of the row, or stops at the end
      of the body. */
  method ReadRow(g: Grid, x: int, y: int, body: seq<Byte>, b0: int, ghost s: seq<Byte>) returns (b: int)
    requires g.Valid() && g.n % 8 == 0 && 0 <= x < g.n && 0 <= y < g.n
    requires |s| == g.cellEnabled.Length
    requires 0 <= b0 <= |body| && 8 * b0 == Idx(g.n, x, y, 0) <= |s|
    requires g.cellEnabled[..] == DecodeBody(body[..b0]) + s[8 * b0..]
    modifies g.cellEnabled
    ensures 8 * (b0 + g.n / 8) == Idx(g.n, x, y, g.n) <= |s|
    ensures b == if |body| < b0 + g.n / 8 then |body| else b0 + g.n / 8
    ensures g.cellEnabled[..] == DecodeBody(body[..b]) + s[8 * b..]
  {
    var n := g.n;
    ghost var q := n / 8;
    assert n == 8 * q;
    IdxDecode(n, x, y, 0);
    IdxDecode(n, x, y, n - 1);
    b := b0;
    var z := 0;
    ghost var w := 0;
    while z < n
      invariant 0 <= z <= n && z == 8 * w && 8 * b == Idx(n, x, y, z) <= |s| && b <= |body|
      invariant b == b0 + w
      invariant g.cellEnabled[..] == DecodeBody(body[..b]) + s[8 * b..]
    {
      if b == |body| {
        return;
      }
      RunFits(w, q);
      IdxDecode(n, x, y, z + 7);
      var i := Idx(n, x, y, z);
      ReadStep(s, body, b, g.cellEnabled[..]);
      UnpackInto(g, i, body[b]);
      b := b + 1;
      z, w := z + 8, w + 1;
    }
  }

  /** The y loop of the reader for one x: it reads the rows of the plane,
      or stops at the end of the body. */
  method ReadPlane(g: Grid, x: int, body: seq<Byte>, b0: int, ghost s: seq<Byte>) returns (b: int)
    requires g.Valid() && g.n % 8 == 0 && 0 <= x < g.n
    requires |s| == g.cellEnabled.Length
    requires 0 <= b0 <= |body| && 8 * b0 == Idx(g.n, x, 0, 0) <= |s|
    requires g.cellEnabled[..] == DecodeBody(body[..b0]) + s[8 * b0..]
    modifies g.cellEnabled
    ensures b0 <= b <= |body| && 8 * b <= Idx(g.n, x + 1, 0, 0) <= |s|
    ensures b == |body| || 8 * b == Idx(g.n, x + 1, 0, 0)
    ensures g.cellEnabled[..] == DecodeBody(body[..b]) + s[8 * b..]
  {
    var n := g.n;
    if x + 1 < n {
      IdxDecode(n, x + 1, 0, 0);
    } else {
      RowEnds(n, x, 0);
    }
    b := b0;
    var y := 0;
    while y < n
      invariant 0 <= y <= n && b0 <= b <= |body| && 8 * b == Idx(n, x, y, 0) <= |s|
      invariant g.cellEnabled[..] == DecodeBody(body[..b]) + s[8 * b..]
    {
      var b' := ReadRow(g, x, y, body, b, s);
      RowEnds(n, x, y);
      RowWithinPlane(n, x, y);
      if b' < b + n / 8 {
        return b';
      }
      b := b';
      y := y + 1;
    }
    RowEnds(n, x, y);
  }

  /** The x loop of the reader. The file running out ends the read, with
      the cells read so far written. */
  method ReadBody(g: Grid, body: seq<Byte>) returns (complete: bool)
    requires g.Valid() && g.n % 8 == 0
    modifies g.cellEnabled
    ensures |old(g.cellEnabled[..])| % 8 == 0
    ensures complete == (|body| >= g.cellEnabled.Length / 8)
    ensures g.cellEnabled[..] == ReadDesign(old(g.cellEnabled[..]), body)
  {
    var n := g.n;
    ghost var s := g.cellEnabled[..];
    CellsFillBytes(n, n / 8);
    var b := 0;
    var x := 0;
    while x < n
      invariant 0 <= x <= n && 0 <= b <= |body| && 8 * b == Idx(n, x, 0, 0) <= |s|
      invariant g.cellEnabled[..] == DecodeBody(body[..b]) + s[8 * b..]
    {
      var b' := ReadPlane(g, x, body, b, s);
      if 8 * b' != Idx(n, x + 1, 0, 0) {
        ReadStopsAt(s, body, b');
        return false;
      }
      b := b';
      x := x + 1;
    }
    RowEnds(n, x, 0);
    ReadStopsAt(s, body, b);
    return true;
  }

  /** `loadHeatsink(name)` on the bytes of the file. */
  method LoadHeatsink(g: Grid, file: seq<Byte>) returns (outcome: LoadOutcome)
    requires g.Valid() && g.n % 8 == 0
    modifies g.cellEnabled
    ensures (outcome, g.cellEnabled[..]) == LoadedDesign(old(g.cellEnabled[..]), g.n, g.airPadding, file)
  {
    if |file| < 4 {
      return Truncated;
    }
    if BytesInt(file[..4]) != IntBits(g.n) {
      return SizeMismatch;
    }
    if |file| < 8 {
      return Truncated;
    }
    if BytesInt(file[4..8]) != IntBits(g.airPadding) {
      return PaddingMismatch;
    }
    var complete := ReadBody(g, file[8..]);
    outcome := if complete then Loaded else Truncated;
  }
}
