/**
  What the two sides of the ring can bring about, from every reachable state: the
  safety theorems of `SpscProtocol` are not met by standing still.
 */
module RingProgress {
  import opened Basics
  import opened RingMath
  import opened SpscProtocol

  lemma {:induction false} ReachesConcat(s: State, a: seq<Step>, m: State, b: seq<Step>, t: State)
    requires Reaches(s, a, m) && Reaches(m, b, t)
    ensures Reaches(s, a + b, t)
    decreases |a|
  {
    if a == [] {
      assert a + b == b;
    } else {
      assert (a + b)[1..] == a[1..] + b;
      ReachesConcat(Apply(s, a[0]), a[1..], m, b, t);
    }
  }

  lemma ReachesOne(s: State, step: Step)
    requires Enabled(s, step)
    ensures Reaches(s, [step], Apply(s, step))
  {
    assert [step][1..] == [];
  }

  lemma ReachesSnoc(s: State, steps: seq<Step>, m: State, step: Step)
    requires Reaches(s, steps, m) && Enabled(m, step)
    ensures Reaches(s, steps + [step], Apply(m, step))
  {
    ReachesOne(m, step);
    ReachesConcat(s, steps, m, [step], Apply(m, step));
  }

  // ---------------------------------------------------------------------
  // The consumer
  // ---------------------------------------------------------------------

  predicate ConsumerStep(step: Step) { step.LoadWrite? || step.ReadByte? || step.CommitRead? }

  ghost predicate AllReads(steps: seq<Step>) { forall i :: 0 <= i < |steps| ==> steps[i].ReadByte? }

  ghost predicate AllConsumer(steps: seq<Step>) { forall i :: 0 <= i < |steps| ==> ConsumerStep(steps[i]) }

  ghost predicate Covered(got: map<nat, byte>, lo: nat, hi: nat) { forall p :: lo <= p < hi ==> p in got }

  /** From s to t nothing has happened but reading the first n readable bytes. */
  ghost predicate ReadTo(s: State, t: State, n: nat) {
    t == s.(got := t.got) && Covered(t.got, s.R(), s.R() + n)
  }

  /** A readable byte can be read, whatever has been read before. */
  lemma ReadOne(s: State, off: nat) returns (step: Step)
    requires Inv(s) && off < s.Avail()
    ensures step.ReadByte? && step.off == off && Enabled(s, step) && Inv(Apply(s, step))
  {
    ReadPossible(s, off);
    var from :| Enabled(s, ReadByte(off, from));
    step := ReadByte(off, from);
    ReadByteInv(s, off, from);
  }

  lemma ReadToMore(s: State, m: State, step: Step, n: nat)
    requires ReadTo(s, m, n) && step.ReadByte? && step.off == n && Enabled(m, step)
    ensures ReadTo(s, Apply(m, step), n + 1)
  {}

  /** The first n readable bytes can be read one after the other. */
  lemma {:induction false} ReadUpTo(s: State, n: nat) returns (steps: seq<Step>, t: State)
    requires Inv(s) && n <= s.Avail()
    ensures Reaches(s, steps, t) && AllReads(steps) && Inv(t) && ReadTo(s, t, n)
    decreases n
  {
    if n == 0 {
      steps, t := [], s;
    } else {
      var before, m := ReadUpTo(s, n - 1);
      assert m.Avail() == s.Avail();
      var step := ReadOne(m, n - 1);
      ReadToMore(s, m, step, n - 1);
      ReachesSnoc(s, before, m, step);
      steps, t := before + [step], Apply(m, step);
    }
  }

  /** An acquire load may return the latest write position: everything published is then readable. */
  lemma LoadLatest(s: State)
    requires Inv(s)
    ensures Enabled(s, LoadWrite(|s.wStores| - 1))
    ensures var t := Apply(s, LoadWrite(|s.wStores| - 1));
      Inv(t) && t.R() == s.R() && t.W() == s.W() && t.WSeen() == s.W() && t.Avail() == s.W() - s.R()
  {
    CursorBounds(s);
    LoadInv(s, LoadWrite(|s.wStores| - 1));
  }

  /** Committing all that is readable, the read cursor is where the acquired write cursor was. */
  lemma CommitAll(s: State)
    requires Inv(s) && s.WSeen() == s.W()
    ensures Enabled(s, CommitRead(s.Avail()))
    ensures var t := Apply(s, CommitRead(s.Avail()));
      Inv(t) && t.R() == t.W() == s.W() && t.published == s.published && t.got == s.got
  {
    CursorBounds(s);
    CommitReadInv(s, s.Avail());
  }

  lemma ConsumeAll(s: State) returns (steps: seq<Step>, u: State)
    requires Inv(s)
    ensures Reaches(s, steps, u) && AllConsumer(steps) && Inv(u)
    ensures u.R() == u.W() == s.W() && u.published == s.published && Covered(u.got, s.R(), s.W())
  {
    LoadLatest(s);
    var load := LoadWrite(|s.wStores| - 1);
    var s1 := Apply(s, load);
    var bytewise, s2 := ReadUpTo(s1, s1.Avail());
    CommitAll(s2);
    var commit := CommitRead(s2.Avail());
    u := Apply(s2, commit);
    Chain(s, load, s1, bytewise, s2, commit);
    ConsumerChain(load, bytewise, commit);
    steps := [load] + bytewise + [commit];
  }

  lemma ConsumerChain(first: Step, middle: seq<Step>, last: Step)
    requires ConsumerStep(first) && AllReads(middle) && ConsumerStep(last)
    ensures AllConsumer([first] + middle + [last])
  {}

  /** One step, then some, then one. */
  lemma Chain(s: State, first: Step, s1: State, middle: seq<Step>, s2: State, last: Step)
    requires Enabled(s, first) && s1 == Apply(s, first) && Reaches(s1, middle, s2) && Enabled(s2, last)
    ensures Reaches(s, [first] + middle + [last], Apply(s2, last))
  {
    ReachesOne(s, first);
    ReachesConcat(s, [first], s1, middle, s2);
    ReachesSnoc(s, [first] + middle, s2, last);
  }

  /**
    From every reachable state the consumer alone can get at everything that has
    been published, and read it: the read cursor catches up with the write cursor,
    and each byte read on the way is the byte published there.
   */
  lemma DeliveryPossible(s: State, run: seq<Step>, t: State) returns (steps: seq<Step>, u: State)
    requires Init(s) && Reaches(s, run, t)
    ensures Reaches(t, steps, u) && AllConsumer(steps)
    ensures u.R() == u.W() == t.W() && u.published == t.published
    ensures forall p :: t.R() <= p < t.W() ==> p in u.got && p < |t.published| && u.got[p] == t.published[p]
  {
    InitInv(s);
    RunInv(s, run, t);
    steps, u := ConsumeAll(t);
    CursorBounds(u);
  }

  // ---------------------------------------------------------------------
  // The producer
  // ---------------------------------------------------------------------

  predicate CopyStep(step: Step) { step.StoreByte? || step.EndWrite? }

  ghost predicate AllCopy(steps: seq<Step>) { forall i :: 0 <= i < |steps| ==> CopyStep(steps[i]) }

  predicate ProducerStep(step: Step) { CopyStep(step) || step.LoadRead? || step.StartWrite? || step.Flush? }

  ghost predicate AllProducer(steps: seq<Step>) { forall i :: 0 <= i < |steps| ==> ProducerStep(steps[i]) }

  lemma ProducerChain(first: Step, middle: seq<Step>, last: Step)
    requires ProducerStep(first) && AllProducer(middle) && ProducerStep(last)
    ensures AllProducer([first] + middle + [last])
  {}

  lemma ProducerCons(first: Step, middle: seq<Step>)
    requires ProducerStep(first) && AllCopy(middle)
    ensures AllProducer([first] + middle)
  {}

  lemma CopySnoc(steps: seq<Step>, last: Step)
    requires AllCopy(steps) && CopyStep(last)
    ensures AllCopy(steps + [last])
  {}


  /** From s to t nothing has happened but storing the first n bytes of the memcpy under way. */
  ghost predicate StoredTo(s: State, t: State, n: nat) {
    && t == s.(log := t.log, last := t.last, copy := t.copy) && s.copy.Copying? && t.copy.Copying?
    && t.copy.bytes == s.copy.bytes && forall k :: 0 <= k < n ==> k in t.copy.done
  }

  lemma StoredToMore(s: State, m: State, n: nat)
    requires StoredTo(s, m, n) && Enabled(m, StoreByte(n))
    ensures StoredTo(s, Apply(m, StoreByte(n)), n + 1)
  {}

  /** The first n bytes of the memcpy under way can be stored. */
  lemma {:induction false} StoreUpTo(s: State, n: nat) returns (steps: seq<Step>, t: State)
    requires Inv(s) && s.copy.Copying? && n <= |s.copy.bytes|
    ensures Reaches(s, steps, t) && AllCopy(steps) && Inv(t) && Pending(t) == Pending(s) && StoredTo(s, t, n)
    decreases n
  {
    if n == 0 {
      steps, t := [], s;
    } else {
      var before, m := StoreUpTo(s, n - 1);
      StoredToMore(s, m, n - 1);
      StoreByteInv(m, n - 1);
      ReachesSnoc(s, before, m, StoreByte(n - 1));
      CopySnoc(before, StoreByte(n - 1));
      steps, t := before + [StoreByte(n - 1)], Apply(m, StoreByte(n - 1));
    }
  }

  /** From s to t these bytes have been added to the pending ones. */
  ghost predicate Wrote(s: State, t: State, bytes: seq<byte>) {
    && Pending(t) == Pending(s) + bytes && t.w == s.w + |bytes|
    && t.cap == s.cap && t.RSeen() == s.RSeen() && t.W() == s.W()
  }

  /** A copy under way can be finished; its bytes then follow the pending ones. */
  lemma FinishCopy(s: State) returns (steps: seq<Step>, t: State)
    requires Inv(s) && s.copy.Copying?
    ensures Reaches(s, steps, t) && AllCopy(steps) && Inv(t) && t.copy.NoCopy?
    ensures Wrote(s, t, s.copy.bytes)
    ensures t.rStores == s.rStores && t.published == s.published
  {
    var stores, m := StoreUpTo(s, |s.copy.bytes|);
    EndWriteInv(m);
    t := Apply(m, EndWrite);
    steps := stores + [EndWrite];
    CopySnoc(stores, EndWrite);
    ReachesSnoc(s, stores, m, EndWrite);
  }

  /** An acquire load may return the latest read position: all the room there is can be used. */
  lemma LoadRoom(s: State)
    requires Inv(s) && s.copy.NoCopy?
    ensures Enabled(s, LoadRead(|s.rStores| - 1))
    ensures var t := Apply(s, LoadRead(|s.rStores| - 1));
      && Inv(t) && Pending(t) == Pending(s) && t == s.(rIdx := |s.rStores| - 1)
      && t.RSeen() == t.R() == s.R() && t.W() == s.W()
  {
    LoadInv(s, LoadRead(|s.rStores| - 1));
  }

  /** With the latest read cursor loaded, a write that fits can be started and finished. */
  lemma WriteOne(s: State, bytes: seq<byte>) returns (steps: seq<Step>, t: State)
    requires Inv(s) && s.copy.NoCopy? && Accepts(s.cap, s.w, s.RSeen(), |bytes|)
    ensures Reaches(s, steps, t) && AllProducer(steps) && Inv(t) && t.copy.NoCopy?
    ensures Pending(t) == Pending(s) + bytes && t.published == s.published && t.R() == s.R()
  {
    StartWriteInv(s, bytes);
    var m := Apply(s, StartWrite(bytes));
    var copies;
    copies, t := FinishCopy(m);
    ReachesOne(s, StartWrite(bytes));
    ReachesConcat(s, [StartWrite(bytes)], m, copies, t);
    ProducerCons(StartWrite(bytes), copies);
    steps := [StartWrite(bytes)] + copies;
  }

  lemma WriteAndPublish(s: State, bytes: seq<byte>) returns (steps: seq<Step>, u: State)
    requires Inv(s) && s.copy.NoCopy? && Accepts(s.cap, s.w, s.R(), |bytes|)
    ensures Reaches(s, steps, u) && AllProducer(steps) && Inv(u)
    ensures u.published == s.published + Pending(s) + bytes
  {
    LoadRoom(s);
    var load := LoadRead(|s.rStores| - 1);
    var s1 := Apply(s, load);
    var writes, s2 := WriteOne(s1, bytes);
    FlushInv(s2);
    u := Apply(s2, Flush);
    Chain(s, load, s1, writes, s2, Flush);
    ProducerChain(load, writes, Flush);
    ConcatAssoc(s.published, Pending(s), bytes);
    steps := [load] + writes + [Flush];
  }

  /**
    From every reachable state between writes, bytes that fit the room the consumer
    has really left, however stale the producer's view of it, can be written and
    published behind the pending ones.
   */
  lemma WritePossible(s: State, run: seq<Step>, t: State, bytes: seq<byte>) returns (steps: seq<Step>, u: State)
    requires Init(s) && Reaches(s, run, t) && t.copy.NoCopy?
    requires 0 < |bytes| <= t.cap / 2 && t.w + |bytes| <= t.R() + t.cap
    ensures Reaches(t, steps, u) && AllProducer(steps)
    ensures u.published == t.published + Pending(t) + bytes
  {
    InitInv(s);
    RunInv(s, run, t);
    steps, u := WriteAndPublish(t, bytes);
  }

  /** With everything consumed and nothing pending, Capacity/2 bytes can always be written. */
  lemma EmptyRingTakesHalf(s: State, run: seq<Step>, t: State, bytes: seq<byte>) returns (steps: seq<Step>, u: State)
    requires Init(s) && Reaches(s, run, t) && t.copy.NoCopy? && t.R() == t.w && |bytes| == t.cap / 2
    ensures Reaches(t, steps, u) && AllProducer(steps) && u.published == t.published + bytes
  {
    InitInv(s);
    RunInv(s, run, t);
    CursorBounds(t);
    assert Pending(t) == [];
    steps, u := WriteAndPublish(t, bytes);
  }
}
