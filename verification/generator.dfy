/** `Xid::new`: stamps the current second, the machine and process ids, and
    the next value of a global 32-bit counter. The clock and the three
    process-wide values are parameters here; how MACHINE, PROCESS and the
    counter's starting value are derived is not part of this model. */
module Generator {
  import opened Bytes
  import opened Ids
  import opened Codec

  /** 2^32: `u32` arithmetic wraps modulo this. */
  const Wrap32 := 0x1_0000_0000

  /** 2^24: an identifier keeps the counter modulo this. */
  const Wrap24 := 0x100_0000

  /** The process-wide values `new` reads: MACHINE, PROCESS and COUNTER. */
  datatype State = State(machine: MachineId, process: u32, counter: u32)

  /** One call of `new`: the identifier and the state after it. */
  datatype Step = Step(id: Xid, next: State)

  /** `COUNTER.fetch_add(1)` followed by `old + 1`: both wrap at 2^32, so
      the identifier is stamped with the value the counter now holds. */
  function Bump(c: u32): (r: u32)
    ensures r == if c == Wrap32 - 1 then 0 else c + 1
    ensures r % Wrap24 == (c + 1) % Wrap24
  {
    (c + 1) % Wrap32
  }

  /** `Xid::new()` at second `now`. */
  function New(s: State, now: u32): (r: Step)
    ensures r.next.machine == s.machine && r.next.process == s.process
    ensures r.next.counter == Bump(s.counter)
    ensures Timestamp(r.id) == now
    ensures Machine(r.id) == s.machine
    ensures Process(r.id) == s.process % 0x1_0000
    ensures Counter(r.id) == (s.counter + 1) % Wrap24
  {
    var obj := Bump(s.counter);
    Step(FromParts(now, s.machine, s.process, obj), s.(counter := obj))
  }

  /** Two identifiers stamped with the same machine and process compare by
      timestamp, then by the counter's low 24 bits. */
  lemma StampOrder(t1: u32, t2: u32, m: MachineId, p: u32, o1: u32, o2: u32)
    ensures Less(FromParts(t1, m, p, o1), FromParts(t2, m, p, o2))
        <==> t1 < t2 || (t1 == t2 && o1 % Wrap24 < o2 % Wrap24)
  {
    FromPartsOrder(t1, m, p, o1, t2, m, p, o2);
    LexLessTrichotomy(m, m);
  }

  /** The counter's low 24 bits step from (c + 1) to (c + 2) modulo 2^24,
      which is an increase except when they wrap to zero. */
  lemma CounterStep(c: nat)
    ensures (c + 1) % Wrap24 < (c + 2) % Wrap24 <==> (c + 2) % Wrap24 != 0
  {
    var q, r := (c + 1) / Wrap24, (c + 1) % Wrap24;
    if r + 1 < Wrap24 {
      ModUnique(c + 2, Wrap24, q, r + 1);
    } else {
      ModUnique(c + 2, Wrap24, q + 1, 0);
    }
  }

  /** Two successive calls of `new`, the second no earlier than the first:
      the second identifier sorts after the first exactly when the second
      is later or the 24-bit counter does not wrap to zero. */
  lemma Successive(s: State, t1: u32, t2: u32)
    requires t1 <= t2
    ensures Less(New(s, t1).id, New(New(s, t1).next, t2).id)
        <==> t1 < t2 || (s.counter + 2) % Wrap24 != 0
  {
    var o1 := Bump(s.counter);
    var o2 := Bump(o1);
    assert New(s, t1).id == FromParts(t1, s.machine, s.process, o1);
    assert New(New(s, t1).next, t2).id == FromParts(t2, s.machine, s.process, o2);
    assert o2 % Wrap24 == (s.counter + 2) % Wrap24 by {
      ModAdd(s.counter + 1, Wrap24);
    }
    StampOrder(t1, t2, s.machine, s.process, o1, o2);
    CounterStep(s.counter);
  }

  /** ... and their text forms sort the same way (the `test_ord` test). */
  lemma SuccessiveText(s: State, t1: u32, t2: u32)
    requires t1 <= t2
    ensures LexLess(Encode(New(s, t1).id), Encode(New(New(s, t1).next, t2).id))
        <==> t1 < t2 || (s.counter + 2) % Wrap24 != 0
  {
    Successive(s, t1, t2);
    EncodeOrder(New(s, t1).id, New(New(s, t1).next, t2).id);
  }

  /** Adding one commutes with reduction modulo m. */
  lemma ModAdd(n: nat, m: nat)
    requires m > 1
    ensures (n % m + 1) % m == (n + 1) % m
  {
    var q, r := n / m, n % m;
    if r + 1 < m {
      ModUnique(n + 1, m, q, r + 1);
      ModUnique(r + 1, m, 0, r + 1);
    } else {
      ModUnique(n + 1, m, q + 1, 0);
      ModUnique(r + 1, m, 1, 0);
    }
  }

  /** Reducing modulo 2^32 keeps the low 24 bits. */
  lemma Low24(n: nat)
    ensures (n % Wrap32) % Wrap24 == n % Wrap24
  {
    DivModNest(n, Wrap24, 0x100);
  }

  /** `n` calls of `new` within one second. */
  method NewMany(s: State, now: u32, n: nat) returns (ids: seq<Xid>, last: State)
    ensures |ids| == n
    ensures last == s.(counter := (s.counter + n) % Wrap32)
    ensures forall i :: 0 <= i < n ==> Timestamp(ids[i]) == now && Machine(ids[i]) == s.machine
    ensures forall i :: 0 <= i < n ==> Process(ids[i]) == s.process % 0x1_0000
    ensures forall i :: 0 <= i < n ==> Counter(ids[i]) == (s.counter + i + 1) % Wrap24
    ensures n <= Wrap24 ==> forall i, j :: 0 <= i < j < n ==> ids[i] != ids[j]
    ensures s.counter % Wrap24 + n < Wrap24 ==> forall i, j :: 0 <= i < j < n ==> Less(ids[i], ids[j])
  {
    ids := [];
    last := s;
    while |ids| < n
      invariant |ids| <= n
      invariant last == s.(counter := (s.counter + |ids|) % Wrap32)
      invariant forall i :: 0 <= i < |ids| ==> ids[i] == FromParts(now, s.machine, s.process, (s.counter + i + 1) % Wrap32)
    {
      var step := New(last, now);
      assert step.next.counter == (s.counter + |ids| + 1) % Wrap32 by {
        ModAdd(s.counter + |ids|, Wrap32);
      }
      ids := ids + [step.id];
      last := step.next;
    }
    forall i | 0 <= i < n
      ensures Timestamp(ids[i]) == now && Machine(ids[i]) == s.machine
      ensures Process(ids[i]) == s.process % 0x1_0000
      ensures Counter(ids[i]) == (s.counter + i + 1) % Wrap24
    {
      Low24(s.counter + i + 1);
    }
    if n <= Wrap24 {
      forall i, j | 0 <= i < j < n
        ensures ids[i] != ids[j]
      {
        DistinctIds(s, now, i, j);
      }
    }
    if s.counter % Wrap24 + n < Wrap24 {
      forall i, j | 0 <= i < j < n
        ensures Less(ids[i], ids[j])
      {
        NoWrapOrder(s, now, n, i, j);
      }
    }
  }

  /** Fewer than 2^24 steps apart, two counter values differ in their low
      24 bits, even when those bits wrap in between. */
  lemma CounterDistinct(c: nat, i: nat, j: nat)
    requires i < j < i + Wrap24
    ensures (c + i + 1) % Wrap24 != (c + j + 1) % Wrap24
  {
    var q, r := (c + i + 1) / Wrap24, (c + i + 1) % Wrap24;
    if r + (j - i) < Wrap24 {
      ModUnique(c + j + 1, Wrap24, q, r + (j - i));
    } else {
      ModUnique(c + j + 1, Wrap24, q + 1, r + (j - i) - Wrap24);
    }
  }

  /** Two of `n <= 2^24` calls within one second stamp different identifiers. */
  lemma DistinctIds(s: State, now: u32, i: nat, j: nat)
    requires i < j < i + Wrap24
    ensures FromParts(now, s.machine, s.process, (s.counter + i + 1) % Wrap32)
         != FromParts(now, s.machine, s.process, (s.counter + j + 1) % Wrap32)
  {
    Low24(s.counter + i + 1);
    Low24(s.counter + j + 1);
    CounterDistinct(s.counter, i, j);
  }

  /** Within one second and without a 24-bit wrap, a later counter value
      gives a later identifier. */
  lemma NoWrapOrder(s: State, now: u32, n: nat, i: nat, j: nat)
    requires i < j < n && s.counter % Wrap24 + n < Wrap24
    ensures Less(FromParts(now, s.machine, s.process, (s.counter + i + 1) % Wrap32),
                 FromParts(now, s.machine, s.process, (s.counter + j + 1) % Wrap32))
  {
    var q, r := s.counter / Wrap24, s.counter % Wrap24;
    Low24(s.counter + i + 1);
    Low24(s.counter + j + 1);
    ModUnique(s.counter + i + 1, Wrap24, q, r + i + 1);
    ModUnique(s.counter + j + 1, Wrap24, q, r + j + 1);
    StampOrder(now, now, s.machine, s.process, (s.counter + i + 1) % Wrap32, (s.counter + j + 1) % Wrap32);
  }
}
