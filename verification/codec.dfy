/**
 * The byte layout of a saved grid (io/bin.rs): the magic "CAGR", the version
 * byte 1, the width and the height as 32-bit little-endian words, then the
 * cells row by row. Files, directories and the reading and writing of bytes
 * are left to the caller: `Encode` gives the bytes `save` writes and `Decode`
 * reads a grid from the bytes a file holds, with the error `load` reports.
 */
module Codec {
  import opened Wrappers
  import opened Grids

  /** "CAGR" in ASCII. */
  const Magic: seq<Byte> := [67, 65, 71, 82]
  const Version: Byte := 1
  /** Bytes before the cells: magic, version, width, height. */
  const HeaderSize: nat := 13
  const Word: nat := 0x1_0000_0000

  /**
   * The errors of `load`. `Io` stands for the read that hits the end of the
   * bytes too early; the other failures of the file system behind it are not
   * modelled.
   */
  datatype GridIoError = Io | BadMagic | UnsupportedVersion(version: Byte) | BadSize

  /** `to_le_bytes` of a u32: least significant byte first. */
  function Le32(n: nat): (b: seq<Byte>)
    requires n < Word
    ensures |b| == 4
  {
    var q1 := n / 256;
    var q2 := q1 / 256;
    var q3 := q2 / 256;
    [n % 256, q1 % 256, q2 % 256, q3 % 256]
  }

  /** `u32::from_le_bytes`. */
  function FromLe32(b: seq<Byte>): (n: nat)
    requires |b| == 4
    ensures n < Word
  {
    var b0, b1, b2, b3: int := b[0], b[1], b[2], b[3];
    b0 + 256 * (b1 + 256 * (b2 + 256 * b3))
  }

  /** Reading back the four bytes of a word gives the word. */
  lemma Le32RoundTrip(n: nat)
    requires n < Word
    ensures FromLe32(Le32(n)) == n
  {
    var q1 := n / 256;
    var q2 := q1 / 256;
    var q3 := q2 / 256;
    assert q3 < 256 by {
      assert q1 < 0x100_0000;
      assert q2 < 0x1_0000;
    }
    assert q3 % 256 == q3;
  }

  /** And four bytes read as a word are written back as the same four bytes. */
  lemma FromLe32RoundTrip(b: seq<Byte>)
    requires |b| == 4
    ensures Le32(FromLe32(b)) == b
  {
    var b0, b1, b2, b3: int := b[0], b[1], b[2], b[3];
    var n := FromLe32(b);
    assert n / 256 == b1 + 256 * (b2 + 256 * b3);
    assert n / 256 / 256 == b2 + 256 * b3;
    assert n / 256 / 256 / 256 == b3;
  }

  /** A number below 2^32 survives the `as u32` cast. */
  lemma WordMod(n: nat)
    requires n < Word
    ensures n % Word == n
  {
  }

  /** Two four-byte words that read as the same number are the same bytes. */
  lemma SameWord(a: seq<Byte>, b: seq<Byte>)
    requires |a| == 4 && |b| == 4 && FromLe32(a) == FromLe32(b)
    ensures a == b
  {
    FromLe32RoundTrip(a);
    FromLe32RoundTrip(b);
  }

  /**
   * `save`'s bytes. The width and height are written `as u32`, so dimensions
   * of 2^32 and more are cut down to their low 32 bits.
   */
  function Encode(g: Grid): (bytes: seq<Byte>)
    requires Valid(g)
    ensures |bytes| == HeaderSize + |g.cells|
    ensures bytes[..4] == Magic && bytes[4] == Version
    ensures FromLe32(bytes[5..9]) == g.w % Word && FromLe32(bytes[9..13]) == g.h % Word
    ensures bytes[HeaderSize..] == g.cells
  {
    Le32RoundTrip(g.w % Word);
    Le32RoundTrip(g.h % Word);
    var bytes := Magic + [Version] + Le32(g.w % Word) + Le32(g.h % Word) + g.cells;
    assert bytes[5..9] == Le32(g.w % Word);
    assert bytes[9..13] == Le32(g.h % Word);
    bytes
  }

  /** The header's width and height fields. */
  function Width(bytes: seq<Byte>): nat
    requires |bytes| >= HeaderSize
  {
    FromLe32(bytes[5..9])
  }

  function Height(bytes: seq<Byte>): nat
    requires |bytes| >= HeaderSize
  {
    FromLe32(bytes[9..13])
  }

  /**
   * `load` on the bytes of a file: the magic is read and checked, then the
   * version, then both dimensions, which must be nonzero, then exactly
   * width x height cells. Any read that runs past the end fails with `Io`;
   * bytes after the cells are never read.
   */
  function Decode(bytes: seq<Byte>): (r: Result<Grid, GridIoError>)
    ensures r == Err(Io) <==>
      || |bytes| < 4
      || (bytes[..4] == Magic && |bytes| < 5)
      || (bytes[..4] == Magic && bytes[4] == Version && |bytes| < HeaderSize)
      || (|bytes| >= HeaderSize && bytes[..4] == Magic && bytes[4] == Version && Width(bytes) != 0 && Height(bytes) != 0
          && |bytes| < HeaderSize + Width(bytes) * Height(bytes))
    ensures r == Err(BadMagic) <==> |bytes| >= 4 && bytes[..4] != Magic
    ensures r.Err? && r.error.UnsupportedVersion? <==> |bytes| >= 5 && bytes[..4] == Magic && bytes[4] != Version
    ensures r.Err? && r.error.UnsupportedVersion? ==> r.error.version == bytes[4]
    ensures r == Err(BadSize) <==>
      |bytes| >= HeaderSize && bytes[..4] == Magic && bytes[4] == Version && (Width(bytes) == 0 || Height(bytes) == 0)
    ensures r.Ok? ==>
      && Valid(r.value) && r.value.w == Width(bytes) && r.value.h == Height(bytes)
      && r.value.w > 0 && r.value.h > 0
      && r.value.cells == bytes[HeaderSize..HeaderSize + |r.value.cells|]
  {
    if |bytes| < 4 then Err(Io)
    else if bytes[..4] != Magic then Err(BadMagic)
    else if |bytes| < 5 then Err(Io)
    else if bytes[4] != Version then Err(UnsupportedVersion(bytes[4]))
    else if |bytes| < HeaderSize then Err(Io)
    else
      var w, h := Width(bytes), Height(bytes);
      if w == 0 || h == 0 then Err(BadSize)
      else
        var n := w * h;
        if |bytes| < HeaderSize + n then Err(Io)
        else Ok(Grid(w, h, bytes[HeaderSize..HeaderSize + n]))
  }

  /** A saved grid loads back as itself, when its dimensions are nonzero and fit in 32 bits. */
  lemma DecodeEncode(g: Grid)
    requires Valid(g) && 0 < g.w < Word && 0 < g.h < Word
    ensures Decode(Encode(g)) == Ok(g)
  {
    var bytes := Encode(g);
    var n := |g.cells|;
    WordMod(g.w);
    WordMod(g.h);
    assert Width(bytes) == g.w && Height(bytes) == g.h;
    assert |bytes| == HeaderSize + n;
    assert bytes[HeaderSize..HeaderSize + n] == bytes[HeaderSize..];
  }

  /** A grid with a zero dimension is saved, but loading it fails with `BadSize`. */
  lemma EmptyGridDoesNotLoad(g: Grid)
    requires Valid(g) && (g.w == 0 || g.h == 0)
    ensures Decode(Encode(g)) == Err(BadSize)
  {
    var bytes := Encode(g);
    assert Width(bytes) == 0 || Height(bytes) == 0;
  }

  /** Loading stops after the cells: trailing bytes change nothing. */
  lemma DecodeIgnoresTrailing(bytes: seq<Byte>, extra: seq<Byte>)
    requires Decode(bytes).Ok?
    ensures Decode(bytes + extra) == Decode(bytes)
  {
    var all := bytes + extra;
    assert all[..4] == bytes[..4] && all[4] == bytes[4];
    assert all[5..9] == bytes[5..9] && all[9..13] == bytes[9..13];
    var n := Width(bytes) * Height(bytes);
    assert all[HeaderSize..HeaderSize + n] == bytes[HeaderSize..HeaderSize + n];
  }

  /** Two byte strings of at least 13 bytes with the same magic, version, width and height fields have the same header. */
  lemma SameHeader(a: seq<Byte>, b: seq<Byte>)
    requires |a| >= HeaderSize && |b| >= HeaderSize
    requires a[..4] == b[..4] && a[4] == b[4] && a[5..9] == b[5..9] && a[9..13] == b[9..13]
    ensures a[..HeaderSize] == b[..HeaderSize]
  {
    forall i | 0 <= i < HeaderSize
      ensures a[i] == b[i]
    {
      if i < 4 {
        assert a[i] == a[..4][i] && b[i] == b[..4][i];
      } else if 5 <= i < 9 {
        assert a[i] == a[5..9][i - 5] && b[i] == b[5..9][i - 5];
      } else if 9 <= i {
        assert a[i] == a[9..13][i - 9] && b[i] == b[9..13][i - 9];
      }
    }
  }

  /** A string equals a prefix of another when their first k bytes agree and the rest of it is the next stretch of the other. */
  lemma PrefixFromParts(a: seq<Byte>, b: seq<Byte>, k: nat, m: nat)
    requires k <= m == |a| <= |b|
    requires a[..k] == b[..k] && a[k..] == b[k..m]
    ensures a == b[..m]
  {
    assert a == a[..k] + a[k..];
    assert b[..m] == b[..k] + b[k..m];
  }

  /** Saving a loaded grid gives back the header and cells it was loaded from. */
  lemma EncodeDecode(bytes: seq<Byte>)
    requires Decode(bytes).Ok?
    ensures var g := Decode(bytes).value; Encode(g) == bytes[..HeaderSize + |g.cells|]
  {
    var g := Decode(bytes).value;
    var n := |g.cells|;
    var out := Encode(g);
    assert g.w == Width(bytes) && g.h == Height(bytes);
    WordMod(g.w);
    WordMod(g.h);
    assert FromLe32(out[5..9]) == FromLe32(bytes[5..9]);
    assert FromLe32(out[9..13]) == FromLe32(bytes[9..13]);
    SameWord(out[5..9], bytes[5..9]);
    SameWord(out[9..13], bytes[9..13]);
    SameHeader(out, bytes);
    PrefixFromParts(out, bytes, HeaderSize, HeaderSize + n);
  }
}
