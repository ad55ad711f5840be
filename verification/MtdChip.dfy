/** The MTD character device underneath flash/src/mtd_flash.c: one partition cut into erase
    blocks, one open descriptor with its file position, and an oracle that decides how every
    device call turns out.  The device is the environment of the program, so it is given by
    functions on a value; the program over it is imperative. */
module MtdChip {
  import opened Bytes

  /** n is a multiple of e; the recursive form keeps division out of the proofs. */
  predicate Multiple(n: int, e: nat)
    requires 0 < e
    decreases n
  {
    if n < e then n == 0 else Multiple(n - e, e)
  }

  /** What MEMGETBADBLOCK says about one offset when the driver implements it. */
  datatype Verdict = Good | Bad | Failed

  /** The four ways a MEMGETBADBLOCK call returns: 0, a positive value, -1 with EOPNOTSUPP,
      and -1 with any other errno. */
  datatype Answer = Zero | Positive | NotSupported | OtherError

  /** How one device call turns out.
      seekOk:  the lseek before it (or the call itself, for lseek alone) succeeds
      ok:      the call reports success
      intact:  a write leaves exactly the bytes it was given in the block
      moved:   by how much a failed read or write moved the file position
      residue: what a failed erase or a write that was not intact leaves behind
      ecc:     how many uncorrectable ECC errors a read added to the driver's counter */
  datatype Fault = Fault(seekOk: bool, ok: bool, intact: bool, moved: nat, residue: seq<byte>, ecc: nat)

  /** A partition: its geometry, the answers of its bad-block query, and the oracle, which is
      asked once per device call. */
  datatype Chip = Chip(eraseSize: nat, size: nat, supported: bool, verdict: int -> Verdict, fault: nat -> Fault)
  {
    predicate Valid() {
      0 < eraseSize && Multiple(size, eraseSize) && size < 0x8000_0000
    }

    function Query(p: int): Answer {
      if !supported then NotSupported
      else match verdict(p) case Good => Zero case Bad => Positive case Failed => OtherError
    }

    /** The blocks `write_block` passes over without an attempt. */
    predicate Skips(p: int) {
      Query(p) == Positive || Query(p) == OtherError
    }

    predicate Aligned(p: int)
      requires Valid()
    {
      Multiple(p, eraseSize)
    }

    /** p is the offset of an erase block of the partition. */
    predicate IsBlock(p: int)
      requires Valid()
    {
      0 <= p && p + eraseSize <= size && Aligned(p)
    }
  }

  /** The state of the device: its bytes, the file position of the open descriptor, the number
      of device calls made so far, and the driver's count of ECC failures. */
  datatype Flash = Flash(mem: seq<byte>, pos: nat, clock: nat, ecc: nat)

  predicate Fits(c: Chip, f: Flash) {
    c.Valid() && |f.mem| == c.size && f.pos <= c.size
  }

  /** n bytes of debris: what the oracle names, padded or cut to the size of a block. */
  function Scar(residue: seq<byte>, n: nat): (r: seq<byte>)
    ensures |r| == n
  {
    if n <= |residue| then residue[..n] else residue + Fill(n - |residue|, 0xFF)
  }

  /** mem and mem' differ at most inside [lo, hi). */
  ghost predicate SameOutside(mem: seq<byte>, mem': seq<byte>, lo: int, hi: int) {
    |mem| == |mem'| && forall i :: 0 <= i < |mem| && !(lo <= i < hi) ==> mem'[i] == mem[i]
  }

  /** mem and mem' agree on every offset below p. */
  ghost predicate SameBelow(mem: seq<byte>, mem': seq<byte>, p: int) {
    |mem| == |mem'| && forall i :: 0 <= i < |mem| && i < p ==> mem'[i] == mem[i]
  }

  /** ioctl MEMERASE of one block.  A start that is not the offset of a block is refused
      without effect. */
  function Erase(c: Chip, f: Flash, p: int): (r: (Flash, bool))
    requires Fits(c, f)
    ensures Fits(c, r.0) && r.0.pos == f.pos && SameOutside(f.mem, r.0.mem, p, p + c.eraseSize)
    ensures !c.IsBlock(p) ==> !r.1 && r.0.mem == f.mem
    ensures r.1 ==> c.IsBlock(p) && r.0.mem[p..p + c.eraseSize] == Fill(c.eraseSize, 0xFF)
  {
    var o := c.fault(f.clock);
    if !c.IsBlock(p) then (f.(clock := f.clock + 1), false)
    else if o.ok then (f.(clock := f.clock + 1, mem := Put(f.mem, p, Fill(c.eraseSize, 0xFF))), true)
    else (f.(clock := f.clock + 1, mem := Put(f.mem, p, Scar(o.residue, c.eraseSize))), false)
  }

  /** lseek to p and, if that succeeds, write one block there. */
  function SeekWrite(c: Chip, f: Flash, p: nat, data: seq<byte>): (r: (Flash, bool))
    requires Fits(c, f) && p + c.eraseSize <= c.size && |data| == c.eraseSize
    ensures Fits(c, r.0) && SameOutside(f.mem, r.0.mem, p, p + c.eraseSize)
    ensures r.0.pos == f.pos || p <= r.0.pos <= p + c.eraseSize
  {
    var o := c.fault(f.clock);
    if !o.seekOk then (f.(clock := f.clock + 1), false)
    else
      var blk := if o.intact then data else Scar(o.residue, c.eraseSize);
      var moved := if o.ok then c.eraseSize else Min(o.moved, c.eraseSize);
      (Flash(Put(f.mem, p, blk), p + moved, f.clock + 1, f.ecc), o.ok)
  }

  /** lseek to p and, if that succeeds, read one block there.  A successful read returns what
      the flash holds. */
  function SeekRead(c: Chip, f: Flash, p: nat): (r: (Flash, Option<seq<byte>>))
    requires Fits(c, f) && p + c.eraseSize <= c.size
    ensures Fits(c, r.0) && r.0.mem == f.mem
    ensures r.0.pos == f.pos || p <= r.0.pos <= p + c.eraseSize
    ensures r.1.Some? ==> r.1.value == f.mem[p..p + c.eraseSize] && r.0.pos == p + c.eraseSize
  {
    var o := c.fault(f.clock);
    if !o.seekOk then (f.(clock := f.clock + 1), None)
    else if o.ok then
      (Flash(f.mem, p + c.eraseSize, f.clock + 1, f.ecc + o.ecc), Some(f.mem[p..p + c.eraseSize]))
    else
      (Flash(f.mem, p + Min(o.moved, c.eraseSize), f.clock + 1, f.ecc + o.ecc), None)
  }

  /** ioctl ECCGETSTATS, of which only the failure count is used. */
  function EccStats(c: Chip, f: Flash): (r: (Flash, Option<nat>))
    ensures r.0 == f.(clock := f.clock + 1)
  {
    (f.(clock := f.clock + 1), if c.fault(f.clock).ok then Some(f.ecc) else None)
  }

  /** Two distinct multiples of e are at least e apart. */
  lemma {:induction false} AlignedApart(p: int, q: int, e: nat)
    requires 0 < e && Multiple(p, e) && Multiple(q, e) && p < q
    ensures p + e <= q
    decreases p
  {
    if p >= e {
      AlignedApart(p - e, q - e, e);
    }
  }

  /** The device with its open descriptor, as the program sees it: one method per system call
      the program makes on it. */
  class Mtd {
    const chip: Chip
    var now: Flash

    ghost predicate Valid()
      reads this
    {
      Fits(chip, now)
    }

    constructor (c: Chip, f: Flash)
      requires Fits(c, f)
      ensures Valid() && chip == c && now == f
    {
      chip, now := c, f;
    }

    /** open: the descriptor starts at offset 0. */
    method Open()
      requires Valid()
      modifies this
      ensures Valid() && now == old(now).(pos := 0)
    {
      now := now.(pos := 0);
    }

    /** lseek(fd, 0, SEEK_CUR) */
    method Tell() returns (ok: bool, pos: nat)
      requires Valid()
      modifies this
      ensures Valid() && now == old(now).(clock := old(now.clock) + 1)
      ensures ok == chip.fault(old(now.clock)).seekOk && pos == now.pos
    {
      ok, pos := chip.fault(now.clock).seekOk, now.pos;
      now := now.(clock := now.clock + 1);
    }

    /** close */
    method CloseFd() returns (ok: bool)
      requires Valid()
      modifies this
      ensures Valid() && now == old(now).(clock := old(now.clock) + 1)
      ensures ok == chip.fault(old(now.clock)).ok
    {
      ok := chip.fault(now.clock).ok;
      now := now.(clock := now.clock + 1);
    }

    /** ioctl MEMERASE */
    method MemErase(p: int) returns (ok: bool)
      requires Valid()
      modifies this
      ensures Valid() && (now, ok) == Erase(chip, old(now), p)
    {
      var r := Erase(chip, now, p);
      now, ok := r.0, r.1;
    }

    /** lseek and write */
    method Program(p: nat, data: seq<byte>) returns (ok: bool)
      requires Valid() && p + chip.eraseSize <= chip.size && |data| == chip.eraseSize
      modifies this
      ensures Valid() && (now, ok) == SeekWrite(chip, old(now), p, data)
    {
      var r := SeekWrite(chip, now, p, data);
      now, ok := r.0, r.1;
    }

    /** lseek and read */
    method ReadBack(p: nat) returns (data: Option<seq<byte>>)
      requires Valid() && p + chip.eraseSize <= chip.size
      modifies this
      ensures Valid() && (now, data) == SeekRead(chip, old(now), p)
    {
      var r := SeekRead(chip, now, p);
      now, data := r.0, r.1;
    }

    /** ioctl ECCGETSTATS */
    method GetEccStats() returns (failed: Option<nat>)
      requires Valid()
      modifies this
      ensures Valid() && (now, failed) == EccStats(chip, old(now))
    {
      var r := EccStats(chip, now);
      now, failed := r.0, r.1;
    }
  }
}
