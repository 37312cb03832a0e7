/** DMA commands: copies between local store and main memory, or within local store where the
main address space shows it (`mfc_execute` in `spu_interp.cpp`). */
module SpuDma {
  import opened Bits

  const LS_SIZE: nat := 0x4_0000
  const LS_WINDOW: nat := 0xFE00_0000
  const MAX_SIZE: nat := 0x4000

  type LocalStore = m: seq<byte> | |m| == LS_SIZE witness seq(LS_SIZE, _ => 0)

  /** Main memory; empty when the host has provided none. */
  type Memory = m: seq<byte> | |m| == 0 || |m| == 0x1_0000_0000 witness []

  datatype Mfc = Mfc(lsa: word, eah: word, eal: word, size: word, tag: word, tagMask: word)

  /** What a command leaves behind, or `Undefined` where C gives the copy no meaning: a range
  that runs past the end of local store, or two ranges of it that overlap. */
  datatype Outcome = Moved(ls: LocalStore, vm: Memory) | Undefined

  predicate IsGet(cmd: word) { cmd % 0x100 in {0x40, 0x42, 0x44} }

  predicate IsPut(cmd: word) { cmd % 0x100 in {0x20, 0x22, 0x24} }

  /** `memcpy` over `s` at `at`. */
  function Spliced(s: seq<byte>, at: nat, bytes: seq<byte>): (r: seq<byte>)
    requires at + |bytes| <= |s|
    ensures |r| == |s|
  {
    s[..at] + bytes + s[at + |bytes|..]
  }

  predicate InWindow(ea: word, size: nat) {
    ea >= LS_WINDOW && (ea + size) % TWO32 <= 0xFF00_0000
  }

  predicate InRam(ea: word, size: nat) {
    ea >= 0x1_0000 && (ea + size) % TWO32 < 0x4000_0000
  }

  predicate InCommandBuffer(ea: word, size: nat) {
    ea >= 0xD010_0000 && (ea + size) % TWO32 <= 0xD020_0000
  }

  /** Local-store ranges that a copy may join. */
  predicate Copyable(to: nat, from: nat, size: nat) {
    to + size <= LS_SIZE && from + size <= LS_SIZE && (to + size <= from || from + size <= to)
  }

  function Get(lsa: nat, ea: word, size: nat, ls: LocalStore, vm: Memory): Outcome
    requires lsa < LS_SIZE && size <= MAX_SIZE && vm != []
  {
    if InWindow(ea, size) then
      var from := ea - LS_WINDOW;
      if from + size > LS_SIZE then Moved(ls, vm)
      else if Copyable(lsa, from, size) then Moved(Spliced(ls, lsa, ls[from..from + size]), vm)
      else Undefined
    else if InRam(ea, size) then
      if lsa + size <= LS_SIZE then Moved(Spliced(ls, lsa, vm[ea..ea + size]), vm) else Undefined
    else Moved(ls, vm)
  }

  function Put(lsa: nat, ea: word, size: nat, ls: LocalStore, vm: Memory): Outcome
    requires lsa < LS_SIZE && size <= MAX_SIZE && vm != []
  {
    if InWindow(ea, size) then
      var to := ea - LS_WINDOW;
      if to + size > LS_SIZE then Moved(ls, vm)
      else if Copyable(to, lsa, size) then Moved(Spliced(ls, to, ls[lsa..lsa + size]), vm)
      else Undefined
    else if InRam(ea, size) || InCommandBuffer(ea, size) then
      if lsa + size <= LS_SIZE then Moved(ls, Spliced(vm, ea, ls[lsa..lsa + size])) else Undefined
    else Moved(ls, vm)
  }

  function SizeOf(m: Mfc): nat {
    if m.size > MAX_SIZE then MAX_SIZE else m.size
  }

  function Transfer(m: Mfc, cmd: word, ls: LocalStore, vm: Memory): Outcome {
    if vm == [] then Moved(ls, vm)
    else if IsGet(cmd) then Get(m.lsa % LS_SIZE, m.eal, SizeOf(m), ls, vm)
    else if IsPut(cmd) then Put(m.lsa % LS_SIZE, m.eal, SizeOf(m), ls, vm)
    else Moved(ls, vm)
  }

  // ----- What transfers keep -----

  /** The bytes outside the `size` bytes at `at` are as before. */
  ghost predicate OnlyChanged(was: seq<byte>, now: seq<byte>, at: int, size: nat) {
    |was| == |now| && forall k :: 0 <= k < |was| && !(at <= k < at + size) ==> now[k] == was[k]
  }

  /** A GET never changes main memory and writes at most the addressed range of local store; a
  PUT writes at most the addressed range of main memory, or its image in the window; any other
  command does nothing. */
  lemma TransferFrame(m: Mfc, cmd: word, ls: LocalStore, vm: Memory)
    requires Transfer(m, cmd, ls, vm).Moved?
    ensures var r := Transfer(m, cmd, ls, vm);
      if IsGet(cmd) then r.vm == vm && OnlyChanged(ls, r.ls, m.lsa % LS_SIZE, SizeOf(m))
      else if !IsPut(cmd) then r.ls == ls && r.vm == vm
      else if m.eal < LS_WINDOW then r.ls == ls && OnlyChanged(vm, r.vm, m.eal, SizeOf(m))
      else r.vm == vm && OnlyChanged(ls, r.ls, m.eal - LS_WINDOW, SizeOf(m))
  {
  }

  /** What a PUT stores in main memory, any later GET of the same range brings back, to any place
  in local store and whatever has happened to local store since. */
  lemma PutThenGet(m: Mfc, put: word, get: word, ls: LocalStore, vm: Memory, lsa': word, ls': LocalStore)
    requires IsPut(put) && IsGet(get) && vm != [] && InRam(m.eal, SizeOf(m)) && m.eal < LS_WINDOW
    requires m.lsa % LS_SIZE + SizeOf(m) <= LS_SIZE && lsa' % LS_SIZE + SizeOf(m) <= LS_SIZE
    ensures var r := Transfer(m, put, ls, vm);
      r.Moved? && var g := Transfer(m.(lsa := lsa'), get, ls', r.vm);
      g.Moved? && var n := SizeOf(m);
      g.ls[lsa' % LS_SIZE..lsa' % LS_SIZE + n] == ls[m.lsa % LS_SIZE..m.lsa % LS_SIZE + n]
  {
    var n, from, to := SizeOf(m), m.lsa % LS_SIZE, lsa' % LS_SIZE;
    var r := Transfer(m, put, ls, vm);
    assert r == Moved(ls, Spliced(vm, m.eal, ls[from..from + n]));
    assert r.vm[m.eal..m.eal + n] == ls[from..from + n];
    var g := Transfer(m.(lsa := lsa'), get, ls', r.vm);
    assert g == Moved(Spliced(ls', to, r.vm[m.eal..m.eal + n]), r.vm);
  }

  // ----- What transfers are, byte by byte -----

  /** `size` bytes from `src` at `from` are in `now` at `to`, and the rest of `now` is as in `was`. */
  ghost predicate Carried(was: seq<byte>, now: seq<byte>, to: int, src: seq<byte>, from: int, size: nat) {
    0 <= to && to + size <= |was| == |now| && 0 <= from && from + size <= |src| &&
    forall k :: 0 <= k < |was| ==> now[k] == if to <= k < to + size then src[from + (k - to)] else was[k]
  }

  lemma SplicedCarries(was: seq<byte>, to: nat, src: seq<byte>, from: nat, size: nat)
    requires to + size <= |was| && from + size <= |src|
    ensures Carried(was, Spliced(was, to, src[from..from + size]), to, src, from, size)
  {
  }

  /** A command moves min(size, 16384) bytes between local store, from the low 18 bits of its local
  address on, and the main address. A GET (40, 42, 44) brings them from main memory, or, for main
  addresses from FE000000 on, from local store itself, if they lie inside it; a PUT (20, 22, 24)
  takes them there, or into the command buffer. Nothing else is moved. */
  lemma TransferMeans(m: Mfc, cmd: word, ls: LocalStore, vm: Memory)
    requires vm != [] && Transfer(m, cmd, ls, vm).Moved?
    ensures var c, at, ea, r := cmd % 0x100, m.lsa % 0x4_0000, m.eal, Transfer(m, cmd, ls, vm);
      var n := if m.size <= 0x4000 then m.size else 0x4000;
      var get, put := c == 0x40 || c == 0x42 || c == 0x44, c == 0x20 || c == 0x22 || c == 0x24;
      var end := (ea + n) % 0x1_0000_0000;
      var window := ea >= 0xFE00_0000 && end <= 0xFF00_0000;
      var ram := !window && ea >= 0x1_0000 && end < 0x4000_0000;
      var buffer := !window && ea >= 0xD010_0000 && end <= 0xD020_0000;
      if window && (get || put) && ea - 0xFE00_0000 + n <= 0x4_0000 then
        r.vm == vm &&
        if get then Carried(ls, r.ls, at, ls, ea - 0xFE00_0000, n) else Carried(ls, r.ls, ea - 0xFE00_0000, ls, at, n)
      else if get && ram then r.vm == vm && Carried(ls, r.ls, at, vm, ea, n)
      else if put && (ram || buffer) then r.ls == ls && Carried(vm, r.vm, ea, ls, at, n)
      else r == Moved(ls, vm)
  {
    hide Carried, Spliced;
    var at, ea, n := m.lsa % 0x4_0000, m.eal, SizeOf(m);
    if at + n <= LS_SIZE {
      if InWindow(ea, n) && ea - LS_WINDOW + n <= LS_SIZE {
        SplicedCarries(ls, at, ls, ea - LS_WINDOW, n);
        SplicedCarries(ls, ea - LS_WINDOW, ls, at, n);
      } else if ea + n <= |vm| {
        SplicedCarries(ls, at, vm, ea, n);
        SplicedCarries(vm, ea, ls, at, n);
      }
    }
  }

  /** A command is left to the host exactly when its copy would run past local store, or overlap itself. */
  lemma UndefinedIff(m: Mfc, cmd: word, ls: LocalStore, vm: Memory)
    requires vm != []
    ensures var c, at, ea := cmd % 0x100, m.lsa % 0x4_0000, m.eal;
      var n := if m.size <= 0x4000 then m.size else 0x4000;
      var get, put := c == 0x40 || c == 0x42 || c == 0x44, c == 0x20 || c == 0x22 || c == 0x24;
      var end := (ea + n) % 0x1_0000_0000;
      var window := ea >= 0xFE00_0000 && end <= 0xFF00_0000;
      Transfer(m, cmd, ls, vm).Undefined? <==>
        (get || put) &&
        if window then
          var other := ea - 0xFE00_0000;
          other + n <= 0x4_0000 && (at + n > 0x4_0000 || (at < other + n && other < at + n))
        else
          at + n > 0x4_0000 &&
          ((ea >= 0x1_0000 && end < 0x4000_0000) || (put && ea >= 0xD010_0000 && end <= 0xD020_0000))
  {
  }
}
