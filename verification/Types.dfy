/**
 * Fixed-width integers, sectors and little-endian access shared by the file-system modules.
 * Shifts and masks of the C code are written as division and remainder by powers of two,
 * which agree with them on unsigned values.
 */
module Types {
  type byte = x: int | 0 <= x < 0x100
  type dword = x: int | 0 <= x < 0x1_0000_0000

  // Sector size: _MIN_SS == _MAX_SS == 512.
  type Sector = s: seq<byte> | |s| == 512 witness seq(512, _ => 0)

  datatype FResult = Ok | DiskErr | IntErr | NoFile | Denied | NotEnoughCore | MkfsAborted

  // Keys. A definition that would burden every proof mentioning it is stated as
  // `forall k :: LookX(k) ==> ...`; a proof that needs the definition mentions LookX(0).
  ghost predicate LookVolume(k: int) {
    true
  }

  ghost predicate LookWindow(k: int) {
    true
  }

  ghost predicate LookMap(k: int) {
    true
  }

  ghost predicate LookFile(k: int) {
    true
  }

  ghost predicate LookBytes(k: int) {
    true
  }

  ghost predicate LookLog(k: int) {
    true
  }

  // Unsigned 32-bit subtraction and addition, with wrap-around.
  function Sub32(a: dword, b: dword): dword {
    (a - b) % 0x1_0000_0000
  }

  function Add32(a: dword, b: dword): dword {
    (a + b) % 0x1_0000_0000
  }

  // LD_WORD and LD_DWORD with byte-by-byte access.
  function LdWord(b: seq<byte>, i: nat): (r: dword)
    requires i + 1 < |b|
    ensures r < 0x1_0000
  {
    b[i] as int + 0x100 * b[i + 1] as int
  }

  function LdDword(b: seq<byte>, i: nat): dword
    requires i + 3 < |b|
  {
    b[i] as int + 0x100 * b[i + 1] as int + 0x1_0000 * b[i + 2] as int + 0x100_0000 * b[i + 3] as int
  }

  // ST_WORD and ST_DWORD.
  function StWord(b: seq<byte>, i: nat, v: dword): (r: seq<byte>)
    requires i + 1 < |b|
    ensures |r| == |b|
  {
    b[i := v % 0x100][i + 1 := v / 0x100 % 0x100]
  }

  function StDword(b: seq<byte>, i: nat, v: dword): (r: seq<byte>)
    requires i + 3 < |b|
    ensures |r| == |b|
  {
    b[i := v % 0x100][i + 1 := v / 0x100 % 0x100][i + 2 := v / 0x1_0000 % 0x100][i + 3 := v / 0x100_0000]
  }
}
