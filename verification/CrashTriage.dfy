/**
 Executing mutated inputs and collecting crashes (fuzzing_tool.c).  The target is a parameter;
 counters are unbounded.
 */
module CrashTriage {
  import opened MachineArithmetic
  import opened Modular
  import opened Primes

  const MAX_CRASHES := 1024
  const HASHED_BYTES := 256
  const SIGSEGV := 11

  datatype ExecResult = Ok | Crash | Timeout | Hang | Error

  datatype CrashInfo = CrashInfo(data: Bytes, signalDesc: string, signalNum: int, crashHash: nat, execAt: nat)

  // ---- Hashing and looking up ----

  function Value(b: bv8): nat {
    b as nat
  }

  /** hash * 33 + byte, in 32 bits, over the first n bytes. */
  function HashPrefix(data: Bytes, n: nat): (h: nat)
    requires n <= |data|
    ensures h < UINT32
  {
    if n == 0 then 5381 else (33 * HashPrefix(data, n - 1) + Value(data[n - 1])) % UINT32
  }

  /** Only the first 256 bytes count. */
  function CrashHash(data: Bytes): (h: nat)
    ensures h < UINT32
  {
    HashPrefix(data, if |data| < HASHED_BYTES then |data| else HASHED_BYTES)
  }

  method ComputeHash(data: array<bv8>, len: nat) returns (hash: nat)
    requires len <= data.Length
    ensures hash == CrashHash(data[..len])
  {
    hide Value, HashPrefix;
    HashStart(data[..len]);
    hash := 5381;
    var i := 0;
    while i < len && i < HASHED_BYTES
      invariant i <= len && i <= HASHED_BYTES && hash == HashPrefix(data[..len], i)
    {
      assert data[..len][i] == data[i];
      HashStep(data[..len], i);
      hash := ((hash * 32) % UINT32 + hash + Value(data[i])) % UINT32;
      i := i + 1;
    }
  }

  lemma HashStart(data: Bytes)
    ensures HashPrefix(data, 0) == 5381
  {
  }

  lemma HashStep(data: Bytes, i: nat)
    requires i < |data|
    ensures var h := HashPrefix(data, i);
            HashPrefix(data, i + 1) == ((h * 32) % UINT32 + h + Value(data[i])) % UINT32
  {
    hide Value;
    var h := HashPrefix(data, i);
    assert HashPrefix(data, i + 1) == (33 * h + Value(data[i])) % UINT32;
    hide HashPrefix;
    ShiftAndAdd(h, Value(data[i]));
  }

  lemma ShiftAndAdd(h: nat, b: nat)
    ensures ((h * 32) % UINT32 + h + b) % UINT32 == (33 * h + b) % UINT32
  {
  }

  /** The hash of short inputs, by appending; longer inputs hash like their first 256 bytes. */
  lemma HashByAppending(data: Bytes, b: bv8)
    ensures CrashHash([]) == 5381
    ensures |data| < 256 ==> CrashHash(data + [b]) == (33 * CrashHash(data) + b as nat) % 0x1_0000_0000
    ensures |data| >= 256 ==> CrashHash(data) == CrashHash(data[..256])
  {
    hide HashPrefix;
    HashStart([]);
    if |data| < 256 {
      HashLast(data + [b], |data| + 1);
      HashOfPrefix(data + [b], data, |data|);
    } else {
      HashOfPrefix(data, data[..256], 256);
    }
  }

  lemma HashLast(data: Bytes, n: nat)
    requires 1 <= n <= |data|
    ensures HashPrefix(data, n) == (33 * HashPrefix(data, n - 1) + data[n - 1] as nat) % 0x1_0000_0000
  {
  }

  lemma {:induction false} HashOfPrefix(s: Bytes, t: Bytes, n: nat)
    requires n <= |s| && n <= |t| && s[..n] == t[..n]
    ensures HashPrefix(s, n) == HashPrefix(t, n)
  {
    if n > 0 {
      assert s[..n][..n - 1] == s[..n - 1] && t[..n][..n - 1] == t[..n - 1];
      HashOfPrefix(s, t, n - 1);
      assert s[..n][n - 1] == s[n - 1] && t[..n][n - 1] == t[n - 1];
    }
  }

  /** Every one of the first 256 bytes matters: inputs that differ in one of them only hash differently. */
  lemma {:induction false} EachByteMatters(s: Bytes, t: Bytes, p: nat)
    requires |s| == |t| && p < |s| && p < 256 && s[p] != t[p]
    requires forall q :: 0 <= q < |s| && q != p ==> s[q] == t[q]
    ensures CrashHash(s) != CrashHash(t)
  {
    hide HashPrefix;
    assert s[..p] == t[..p];
    HashOfPrefix(s, t, p);
    DifferenceStarts(s, t, p);
    DifferenceStays(s, t, p + 1, if |s| < 256 then |s| else 256);
  }

  lemma {:induction false} DifferenceStarts(s: Bytes, t: Bytes, p: nat)
    requires p < |s| && p < |t| && s[p] != t[p] && HashPrefix(s, p) == HashPrefix(t, p)
    ensures HashPrefix(s, p + 1) != HashPrefix(t, p + 1)
  {
    hide HashPrefix;
    HashLast(s, p + 1);
    HashLast(t, p + 1);
    ByteStep(HashPrefix(s, p), s[p], t[p]);
  }

  lemma ByteStep(h: nat, a: bv8, b: bv8)
    requires a != b
    ensures (33 * h + a as nat) % 0x1_0000_0000 != (33 * h + b as nat) % 0x1_0000_0000
  {
    var x: nat, y: nat := a as nat, b as nat;
    ByteValue(a, b);
    SmallOffset(33 * h, x, y);
  }

  lemma ByteValue(a: bv8, b: bv8)
    requires a != b
    ensures a as nat != b as nat && a as nat < 256 && b as nat < 256
  {
  }

  lemma SmallOffset(c: nat, x: nat, y: nat)
    requires x != y && x < 256 && y < 256
    ensures (c + x) % 0x1_0000_0000 != (c + y) % 0x1_0000_0000
  {
  }

  /** 33 is odd, hence multiplying by it loses nothing modulo 2^32. */
  lemma MultiplierStep(g: nat, h: nat, b: nat)
    requires g < 0x1_0000_0000 && h < 0x1_0000_0000 && (33 * g + b) % 0x1_0000_0000 == (33 * h + b) % 0x1_0000_0000
    ensures g == h
  {
  }

  lemma {:induction false} DifferenceStays(s: Bytes, t: Bytes, m: nat, n: nat)
    requires m <= n <= |s| == |t| && HashPrefix(s, m) != HashPrefix(t, m)
    requires forall q :: m <= q < |s| ==> s[q] == t[q]
    ensures HashPrefix(s, n) != HashPrefix(t, n)
    decreases n
  {
    hide HashPrefix;
    if m < n {
      DifferenceStays(s, t, m, n - 1);
      HashLast(s, n);
      HashLast(t, n);
      if HashPrefix(s, n) == HashPrefix(t, n) {
        MultiplierStep(HashPrefix(s, n - 1), HashPrefix(t, n - 1), s[n - 1] as nat);
      }
    }
  }

  /** The crash database and the counters, as a value. */
  datatype Log = Log(crashes: seq<CrashInfo>, totalExecs: nat, totalCrashes: nat, uniqueCrashes: nat)

  const EMPTY_LOG := Log([], 0, 0, 0)

  predicate Known(crashes: seq<CrashInfo>, hash: nat) {
    exists i :: 0 <= i < |crashes| && crashes[i].crashHash == hash
  }

  /** `fuzz_crash_save`: a known hash is only counted; a full database drops the crash uncounted. */
  function Saved(log: Log, data: Bytes, desc: string, signal: int): Log {
    var hash := CrashHash(data);
    if Known(log.crashes, hash) then log.(totalCrashes := log.totalCrashes + 1)
    else if |log.crashes| >= MAX_CRASHES then log
    else log.(crashes := log.crashes + [CrashInfo(data, Shortened(desc), signal, hash, log.totalExecs)],
              totalCrashes := log.totalCrashes + 1,
              uniqueCrashes := log.uniqueCrashes + 1)
  }

  /** The three outcomes of a crash, field by field. */
  lemma SavedOutcomes(log: Log, data: Bytes, desc: string, signal: int)
    ensures var r := Saved(log, data, desc, signal);
            var known := exists i :: 0 <= i < |log.crashes| && log.crashes[i].crashHash == CrashHash(data);
            && r.totalExecs == log.totalExecs
            && (known ==> r.crashes == log.crashes && r.uniqueCrashes == log.uniqueCrashes
                          && r.totalCrashes == log.totalCrashes + 1)
            && (!known && |log.crashes| >= 1024 ==> r == log)
            && (!known && |log.crashes| < 1024 ==>
                  && |r.crashes| == |log.crashes| + 1 && r.crashes[..|log.crashes|] == log.crashes
                  && r.uniqueCrashes == log.uniqueCrashes + 1 && r.totalCrashes == log.totalCrashes + 1
                  && var c := r.crashes[|log.crashes|];
                     && c.data == data && c.signalNum == signal && c.crashHash == CrashHash(data)
                     && c.execAt == log.totalExecs
                     && c.signalDesc == if |desc| <= 63 then desc else desc[..63])
  {
    hide CrashHash;
  }

  /** The description field holds 63 characters. */
  function Shortened(desc: string): string {
    if |desc| > 63 then desc[..63] else desc
  }

  /** `fuzz_save_if_interesting`: one execution of the target. */
  function Executed(log: Log, target: Bytes -> ExecResult, input: Bytes): Log {
    var counted := log.(totalExecs := log.totalExecs + 1);
    if target(input) == Crash then Saved(counted, input, "SIGSEGV", SIGSEGV) else counted
  }

  function ExecutedAll(log: Log, target: Bytes -> ExecResult, inputs: seq<Bytes>): Log {
    if inputs == [] then log
    else Executed(ExecutedAll(log, target, inputs[..|inputs| - 1]), target, inputs[|inputs| - 1])
  }

  // ---- The database over whole runs ----

  /** Distinct hashes, each that of the stored data, and a matching counter. */
  ghost predicate Consistent(log: Log) {
    && (forall i, j :: 0 <= i < j < |log.crashes| ==> log.crashes[i].crashHash != log.crashes[j].crashHash)
    && (forall i :: 0 <= i < |log.crashes| ==> log.crashes[i].crashHash == CrashHash(log.crashes[i].data))
    && log.uniqueCrashes == |log.crashes| <= MAX_CRASHES
    && log.uniqueCrashes <= log.totalCrashes
  }

  lemma ExecutedIsConsistent(log: Log, target: Bytes -> ExecResult, input: Bytes)
    requires Consistent(log)
    ensures Consistent(Executed(log, target, input))
  {
    hide CrashHash;
  }

  /** The crash was found by this run. */
  ghost predicate FromRun(c: CrashInfo, target: Bytes -> ExecResult, inputs: seq<Bytes>) {
    1 <= c.execAt <= |inputs| && inputs[c.execAt - 1] == c.data && target(c.data) == Crash
  }

  /** What every run from the empty database has collected. */
  ghost predicate Collected(log: Log, target: Bytes -> ExecResult, inputs: seq<Bytes>) {
    && Consistent(log) && log.totalExecs == |inputs|
    && (forall i :: 0 <= i < |log.crashes| ==> FromRun(log.crashes[i], target, inputs))
    && (forall j :: 0 <= j < |inputs| && target(inputs[j]) == Crash ==>
          Known(log.crashes, CrashHash(inputs[j])) || |log.crashes| == MAX_CRASHES)
  }

  lemma CollectedStep(log: Log, target: Bytes -> ExecResult, inputs: seq<Bytes>, input: Bytes)
    requires Collected(log, target, inputs)
    ensures Collected(Executed(log, target, input), target, inputs + [input])
  {
    hide CrashHash;
    ExecutedIsConsistent(log, target, input);
    var next, run := Executed(log, target, input), inputs + [input];
    assert next.crashes == log.crashes || next.crashes == log.crashes + [next.crashes[|log.crashes|]];
    forall i | 0 <= i < |next.crashes| ensures FromRun(next.crashes[i], target, run) {
      if i < |log.crashes| {
        assert FromRun(log.crashes[i], target, inputs);
      }
    }
    forall j | 0 <= j < |run| && target(run[j]) == Crash
      ensures Known(next.crashes, CrashHash(run[j])) || |next.crashes| == MAX_CRASHES
    {
      KnownStays(log.crashes, next.crashes, CrashHash(run[j]));
      if j == |inputs| && |next.crashes| > |log.crashes| {
        assert next.crashes[|log.crashes|].crashHash == CrashHash(input);
      }
    }
  }

  lemma KnownStays(s: seq<CrashInfo>, t: seq<CrashInfo>, hash: nat)
    requires s <= t
    ensures Known(s, hash) ==> Known(t, hash)
  {
    if Known(s, hash) {
      var i :| 0 <= i < |s| && s[i].crashHash == hash;
      assert t[i].crashHash == hash;
    }
  }

  /**
   After any run: the hashes stored are distinct and as many as counted, each stored crash is an
   input of the run that crashed, and every crashing input is represented unless the database is full.
   */
  lemma {:induction false} RunCollects(target: Bytes -> ExecResult, inputs: seq<Bytes>)
    ensures Collected(ExecutedAll(EMPTY_LOG, target, inputs), target, inputs)
    ensures var found := ExecutedAll(EMPTY_LOG, target, inputs).crashes;
            && |found| <= 1024
            && (forall i, j :: 0 <= i < j < |found| ==> found[i].crashHash != found[j].crashHash)
            && (forall i :: 0 <= i < |found| ==> found[i].crashHash == CrashHash(found[i].data))
  {
    hide Executed, CrashHash;
    if inputs != [] {
      var n := |inputs| - 1;
      RunCollects(target, inputs[..n]);
      CollectedStep(ExecutedAll(EMPTY_LOG, target, inputs[..n]), target, inputs[..n], inputs[n]);
      assert inputs[..n] + [inputs[n]] == inputs;
    }
  }

  /** How many inputs of a run crash the target. */
  function Crashing(target: Bytes -> ExecResult, inputs: seq<Bytes>): nat {
    if inputs == [] then 0
    else Crashing(target, inputs[..|inputs| - 1]) + if target(inputs[|inputs| - 1]) == Crash then 1 else 0
  }

  /** Every crash is counted as long as the database is not full, and never more than those. */
  lemma {:induction false} TotalCountsCrashes(target: Bytes -> ExecResult, inputs: seq<Bytes>)
    ensures var log := ExecutedAll(EMPTY_LOG, target, inputs);
            && log.totalExecs == |inputs| && log.totalCrashes <= Crashing(target, inputs)
            && (|log.crashes| < 1024 ==> log.totalCrashes == Crashing(target, inputs))
            && forall i :: 0 <= i < |log.crashes| ==>
                 log.crashes[i].signalNum == 11 && log.crashes[i].signalDesc == "SIGSEGV"
  {
    hide CrashHash, Known;
    if inputs != [] {
      TotalCountsCrashes(target, inputs[..|inputs| - 1]);
    }
  }

  // ---- Bit flips ----

  function Mask(bit: nat): bv8
    requires bit < 8
  {
    if bit == 0 then 1 else if bit == 1 then 2 else if bit == 2 then 4 else if bit == 3 then 8
    else if bit == 4 then 16 else if bit == 5 then 32 else if bit == 6 then 64 else 128
  }

  function FlipByte(x: bv8, bit: nat): bv8
    requires bit < 8
  {
    x ^ Mask(bit)
  }

  /** The buffer with one bit inverted. */
  function Flip(buffer: Bytes, pos: nat, bit: nat): (r: Bytes)
    requires pos < |buffer| && bit < 8
    ensures |r| == |buffer|
  {
    buffer[pos := FlipByte(buffer[pos], bit)]
  }

  /** The first n inputs tried at a position: the bits of the following bytes, one after another. */
  function Row(buffer: Bytes, pos: nat, n: nat): (r: seq<Bytes>)
    requires n > 0 ==> pos + (n - 1) / 8 < |buffer|
    ensures |r| == n
  {
    if n == 0 then [] else Row(buffer, pos, n - 1) + [Flip(buffer, pos + (n - 1) / 8, (n - 1) % 8)]
  }

  /** The inputs tried at the first n positions. */
  function Rows(buffer: Bytes, width: nat, n: nat): seq<Bytes>
    requires width >= 1 && (n > 0 ==> n - 1 + width <= |buffer|)
  {
    if n == 0 then [] else Rows(buffer, width, n - 1) + Row(buffer, n - 1, 8 * width)
  }

  /** All inputs of one bitflip pass over the first len bytes. */
  function Pass(buffer: Bytes, width: nat, len: nat): seq<Bytes>
    requires width >= 1 && len <= |buffer|
  {
    if width > len then [] else Rows(buffer, width, len - width + 1)
  }

  class Fuzzer {
    var outBuf: array<bv8>
    var outLen: nat
    var target: Option<Bytes -> ExecResult>
    var log: Log
    /** Every input handed to the target. */
    ghost var tried: seq<Bytes>

    constructor (target: Option<Bytes -> ExecResult>, capacity: nat)
      ensures this.target == target && outLen == 0 && fresh(outBuf) && outBuf.Length == capacity
      ensures log == EMPTY_LOG && tried == [] && Valid()
    {
      this.target := target;
      outBuf := new bv8[capacity](_ => 0);
      outLen := 0;
      log := EMPTY_LOG;
      tried := [];
    }

    ghost predicate Valid()
      reads this, outBuf
    {
      && outLen <= outBuf.Length
      && (target.Some? ==> log == ExecutedAll(EMPTY_LOG, target.value, tried))
      && (target.None? ==> log == EMPTY_LOG && tried == [])
    }

    /** The part of the buffer that the target sees. */
    ghost function Buffer(): Bytes
      requires outLen <= outBuf.Length
      reads this, outBuf
    {
      outBuf[..outLen]
    }

    method CrashFind(hash: nat) returns (index: int)
      ensures index == -1 <==> !Known(log.crashes, hash)
      ensures index >= 0 ==> index < |log.crashes| && log.crashes[index].crashHash == hash
      ensures index >= -1 && forall k :: 0 <= k < index ==> log.crashes[k].crashHash != hash
    {
      for i := 0 to |log.crashes|
        invariant forall k :: 0 <= k < i ==> log.crashes[k].crashHash != hash
      {
        if log.crashes[i].crashHash == hash {
          return i;
        }
      }
      return -1;
    }

    method CrashSave(desc: string, signal: int)
      requires outLen <= outBuf.Length
      modifies `log
      ensures log == Saved(old(log), Buffer(), desc, signal)
    {
      hide CrashHash, Known;
      var hash := ComputeHash(outBuf, outLen);
      var index := CrashFind(hash);
      if index >= 0 {
        log := log.(totalCrashes := log.totalCrashes + 1);
        return;
      }
      if |log.crashes| >= MAX_CRASHES {
        return;
      }
      var info := CrashInfo(outBuf[..outLen], Shortened(desc), signal, hash, log.totalExecs);
      log := log.(crashes := log.crashes + [info], totalCrashes := log.totalCrashes + 1,
                  uniqueCrashes := log.uniqueCrashes + 1);
    }

    /** Runs the target, if there is one, on a non-empty buffer. */
    method SaveIfInteresting() returns (crashed: bool)
      requires Valid()
      modifies `log, `tried
      ensures Valid()
      ensures tried == if target.None? || outLen == 0 then old(tried) else old(tried) + [Buffer()]
      ensures crashed == (target.Some? && outLen > 0 && target.value(Buffer()) == Crash)
    {
      hide Saved;
      if outLen == 0 || target.None? {
        return false;
      }
      var res := target.value(outBuf[..outLen]);
      ghost var before := tried;
      log := log.(totalExecs := log.totalExecs + 1);
      tried := tried + [outBuf[..outLen]];
      assert tried[..|tried| - 1] == before;
      if res == Crash {
        CrashSave("SIGSEGV", SIGSEGV);
        return true;
      }
      return false;
    }

    /** Grows the buffer when needed; its new content is arbitrary. */
    method EnsureOutBuf(len: nat)
      requires Valid()
      modifies `outBuf, `outLen
      ensures Valid() && outLen >= len
      ensures old(outLen) >= len ==> outBuf == old(outBuf) && outLen == old(outLen)
      ensures old(outLen) < len ==> fresh(outBuf) && outLen == outBuf.Length == len + 1024
    {
      if outLen < len {
        outBuf := new bv8[len + 1024];
        outLen := len + 1024;
      }
    }

    /**
     `fuzz_mutate_bitflip` on the current entry: the buffer starts with the entry, each flip is
     tried and undone, so exactly one pass over the buffer is tried and the buffer is restored.
     */
    method MutateBitflip(entry: Bytes, width: nat)
      requires Valid() && width >= 1
      modifies this, outBuf
      ensures Valid() && target == old(target) && |entry| <= outLen && Buffer()[..|entry|] == entry
      ensures tried == old(tried) + if target.None? then [] else Pass(Buffer(), width, |entry|)
    {
      hide Pass, ExecutedAll;
      EnsureOutBuf(|entry|);
      Copy(entry);
      FlipAll(width, |entry|);
    }

    /** The outer loop: all positions at which `width` bytes fit. */
    method FlipAll(width: nat, len: nat)
      requires Valid() && width >= 1 && len <= outLen
      modifies `log, `tried, outBuf
      ensures Valid() && Buffer() == old(Buffer())
      ensures tried == old(tried) + if target.None? then [] else Pass(Buffer(), width, len)
    {
      hide Row, Rows, Flip, ExecutedAll, Pass;
      ghost var buffer := Buffer();
      var pos := 0;
      RowsStart(buffer, width);
      while pos + width <= len
        invariant Valid() && Buffer() == buffer
        invariant pos == 0 || pos - 1 + width <= len
        invariant tried == old(tried) + if target.None? then [] else Rows(buffer, width, pos)
        decreases len - pos
      {
        ghost var rows := Rows(buffer, width, pos);
        FlipAt(pos, width);
        RowsNext(buffer, width, pos);
        assert target.Some? ==> tried == old(tried) + (rows + Row(buffer, pos, 8 * width));
        pos := pos + 1;
      }
      PassIsRows(buffer, width, len, pos);
    }

    /** The entry's bytes, at the front of the buffer. */
    method Copy(entry: Bytes)
      requires Valid() && |entry| <= outLen
      modifies outBuf
      ensures Valid() && Buffer()[..|entry|] == entry
    {
      for i := 0 to |entry|
        invariant forall k :: 0 <= k < i ==> outBuf[k] == entry[k]
      {
        outBuf[i] := entry[i];
      }
    }

    /** The inner loop: all bits of `width` bytes from a position. */
    method FlipAt(pos: nat, width: nat)
      requires Valid() && width >= 1 && pos + width <= outLen
      modifies `log, `tried, outBuf
      ensures Valid() && Buffer() == old(Buffer())
      ensures tried == old(tried) + if target.None? then [] else Row(Buffer(), pos, 8 * width)
    {
      hide ExecutedAll, Row, Flip;
      ghost var buffer := Buffer();
      RowStart(buffer, pos);
      for bit := 0 to 8 * width
        invariant Valid() && Buffer() == buffer
        invariant tried == old(tried) + if target.None? then [] else Row(buffer, pos, bit)
      {
        RowNext(buffer, pos, bit);
        TryFlip(pos + bit / 8, bit % 8);
      }
    }

    /** Inverts a bit, runs the target, and restores the byte. */
    method TryFlip(i: nat, bit: nat)
      requires Valid() && i < outLen && bit < 8
      modifies `log, `tried, outBuf
      ensures Valid() && Buffer() == old(Buffer())
      ensures tried == old(tried) + if target.None? then [] else [Flip(Buffer(), i, bit)]
    {
      hide ExecutedAll, FlipByte;
      ghost var buffer := Buffer();
      var orig := outBuf[i];
      outBuf[i] := FlipByte(outBuf[i], bit);
      assert Buffer() == Flip(buffer, i, bit);
      var _ := SaveIfInteresting();
      outBuf[i] := orig;
      assert Buffer() == buffer;
    }
  }

  lemma RowStart(buffer: Bytes, pos: nat)
    ensures Row(buffer, pos, 0) == []
  {
  }

  lemma RowNext(buffer: Bytes, pos: nat, n: nat)
    requires pos + n / 8 < |buffer|
    ensures Row(buffer, pos, n + 1) == Row(buffer, pos, n) + [Flip(buffer, pos + n / 8, n % 8)]
  {
  }

  lemma RowsStart(buffer: Bytes, width: nat)
    requires width >= 1
    ensures Rows(buffer, width, 0) == []
  {
  }

  lemma RowsNext(buffer: Bytes, width: nat, n: nat)
    requires width >= 1 && n + width <= |buffer|
    ensures Rows(buffer, width, n + 1) == Rows(buffer, width, n) + Row(buffer, n, 8 * width)
  {
  }

  // ---- What a pass tries ----

  lemma PassIsRows(buffer: Bytes, width: nat, len: nat, n: nat)
    requires width >= 1 && len <= |buffer| && n + width > len && (n == 0 || n - 1 + width <= len)
    ensures Pass(buffer, width, len) == Rows(buffer, width, n)
  {
  }

  lemma {:induction false} RowAt(buffer: Bytes, pos: nat, n: nat, k: nat)
    requires k < n && pos + (n - 1) / 8 < |buffer|
    ensures Row(buffer, pos, n)[k] == Flip(buffer, pos + k / 8, k % 8)
  {
    hide Flip;
    if k < n - 1 {
      RowAt(buffer, pos, n - 1, k);
    }
  }

  lemma {:induction false} RowsAt(buffer: Bytes, width: nat, n: nat, p: nat, k: nat)
    requires width >= 1 && p < n && n - 1 + width <= |buffer| && k < 8 * width
    ensures |Rows(buffer, width, n)| == 8 * width * n && 8 * width * p + k < 8 * width * n
    ensures Rows(buffer, width, n)[8 * width * p + k] == Flip(buffer, p + k / 8, k % 8)
  {
    hide Row, Flip, Rows;
    var w := 8 * width;
    RowsStart(buffer, width);
    RowsNext(buffer, width, n - 1);
    RowOffset(w, p, k, n);
    if n > 1 {
      RowsAt(buffer, width, n - 1, if p < n - 1 then p else 0, k);
    }
    if p == n - 1 {
      RowAt(buffer, p, w, k);
    }
  }

  lemma RowOffset(w: nat, p: nat, k: nat, n: nat)
    requires k < w && p < n
    ensures w * n == w * (n - 1) + w && w * p + k < w * n
    ensures p < n - 1 ==> w * p + k < w * (n - 1)
  {
    MulMonotone(w, p + 1, n);
    if p < n - 1 {
      MulMonotone(w, p + 1, n - 1);
    }
  }

  /**
   The k-th input at position p of a pass of any width differs from the buffer in the byte p + k / 8
   alone, and there in the bit k % 8.
   */
  lemma PassFlipsOneBit(buffer: Bytes, width: nat, len: nat, p: nat, k: nat)
    requires width >= 1 && len <= |buffer| && p + width <= len && k < 8 * width
    ensures |Pass(buffer, width, len)| == 8 * width * (len - width + 1)
    ensures 8 * width * p + k < |Pass(buffer, width, len)|
    ensures var x := Pass(buffer, width, len)[8 * width * p + k];
            && |x| == |buffer| && x[p + k / 8] ^ buffer[p + k / 8] == (1 as bv8) << (k % 8)
            && forall q :: 0 <= q < |buffer| && q != p + k / 8 ==> x[q] == buffer[q]
  {
    hide FlipByte, Rows;
    RowsAt(buffer, width, len - width + 1, p, k);
    FlipIsShift(buffer[p + k / 8], k % 8);
  }

  lemma FlipIsShift(x: bv8, bit: nat)
    requires bit < 8
    ensures FlipByte(x, bit) ^ x == (1 as bv8) << bit
  {
  }

  // ---- The one-byte pass ----

  /** A byte with exactly one bit set. */
  predicate SingleBit(x: bv8) {
    x == 1 || x == 2 || x == 4 || x == 8 || x == 16 || x == 32 || x == 64 || x == 128
  }

  /** x differs from the buffer at a single position below len, and there in a single bit. */
  ghost predicate SingleBitNeighbour(x: Bytes, buffer: Bytes, len: nat)
    requires len <= |buffer|
  {
    && |x| == |buffer|
    && exists p :: 0 <= p < len && DiffersInOneBitAt(x, buffer, p)
  }

  ghost predicate DiffersInOneBitAt(x: Bytes, buffer: Bytes, p: nat)
    requires p < |x| == |buffer|
  {
    && SingleBit(x[p] ^ buffer[p])
    && forall q :: 0 <= q < |x| && q != p ==> x[q] == buffer[q]
  }

  /** Which of the eight bits it is. */
  lemma WhichBit(x: bv8, y: bv8) returns (bit: nat)
    requires SingleBit(x ^ y)
    ensures bit < 8 && x == FlipByte(y, bit)
  {
    var d := x ^ y;
    assert x == y ^ d;
    bit := if d == 1 then 0 else if d == 2 then 1 else if d == 4 then 2 else if d == 8 then 3
           else if d == 16 then 4 else if d == 32 then 5 else if d == 64 then 6 else 7;
  }

  lemma FlipIsMask(x: bv8, bit: nat)
    requires bit < 8
    ensures FlipByte(x, bit) ^ x == Mask(bit)
  {
    hide Mask;
  }

  lemma MaskIsSingleBit(bit: nat)
    requires bit < 8
    ensures SingleBit(Mask(bit))
  {
  }

  lemma FlipIsNeighbour(buffer: Bytes, p: nat, bit: nat)
    requires p < |buffer| && bit < 8
    ensures DiffersInOneBitAt(Flip(buffer, p, bit), buffer, p)
  {
    hide FlipByte, SingleBit, Mask;
    FlipIsMask(buffer[p], bit);
    MaskIsSingleBit(bit);
  }

  lemma NeighbourIsFlip(x: Bytes, buffer: Bytes, p: nat) returns (bit: nat)
    requires p < |x| == |buffer| && DiffersInOneBitAt(x, buffer, p)
    ensures bit < 8 && x == Flip(buffer, p, bit)
  {
    hide FlipByte, SingleBit;
    bit := WhichBit(x[p], buffer[p]);
  }

  lemma MasksDiffer(x: bv8, a: nat, b: nat)
    requires a < 8 && b < 8
    ensures FlipByte(x, a) != x
    ensures a != b ==> FlipByte(x, a) != FlipByte(x, b)
  {
  }

  /** Flips of different bits give different buffers. */
  lemma FlipsDiffer(buffer: Bytes, p: nat, a: nat, q: nat, b: nat)
    requires p < |buffer| && q < |buffer| && a < 8 && b < 8 && (p != q || a != b)
    ensures Flip(buffer, p, a) != Flip(buffer, q, b)
  {
    hide FlipByte;
    MasksDiffer(buffer[p], a, b);
    assert Flip(buffer, p, a)[p] == FlipByte(buffer[p], a);
    assert Flip(buffer, q, b)[p] == if p == q then FlipByte(buffer[p], b) else buffer[p];
  }

  /** The one-byte pass tries each single-bit neighbour of the entry exactly once, and nothing else. */
  lemma OneBytePassIsExhaustive(buffer: Bytes, len: nat)
    requires len <= |buffer|
    ensures |Pass(buffer, 1, len)| == 8 * len && NoDuplicates(Pass(buffer, 1, len))
    ensures forall x :: x in Pass(buffer, 1, len) <==> SingleBitNeighbour(x, buffer, len)
  {
    hide Flip, Rows, DiffersInOneBitAt;
    var s := Pass(buffer, 1, len);
    if len == 0 {
      return;
    }
    RowsAt(buffer, 1, len, 0, 0);
    forall k | 0 <= k < |s| ensures s[k] == Flip(buffer, k / 8, k % 8) {
      RowsAt(buffer, 1, len, k / 8, k % 8);
    }
    forall i, j | 0 <= i < j < |s| ensures s[i] != s[j] {
      FlipsDiffer(buffer, i / 8, i % 8, j / 8, j % 8);
    }
    forall x ensures x in s <==> SingleBitNeighbour(x, buffer, len) {
      if x in s {
        var k :| 0 <= k < |s| && s[k] == x;
        FlipIsNeighbour(buffer, k / 8, k % 8);
      }
      if SingleBitNeighbour(x, buffer, len) {
        var p :| 0 <= p < len && DiffersInOneBitAt(x, buffer, p);
        var bit := NeighbourIsFlip(x, buffer, p);
        assert x == s[8 * p + bit];
      }
    }
  }
}
