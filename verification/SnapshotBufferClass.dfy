/** The buffer itself: its two methods, statement by statement, each interleaved with an arbitrary
    schedule of the other thread's steps between any two accesses to shared memory. */
module SnapshotBufferClass {
  import opened SnapshotProtocol

  class SnapshotBuffer {
    const buffers: array<Frame>
    var latest: nat
    var writing: nat
    var writeVersion: nat
    var reading: nat
    var readVersion: nat
    // where the two threads stand
    var producer: Producer
    var consumer: Consumer
    // history
    ghost var published: seq<Frame>
    ghost var call: Call
    ghost var results: seq<Result>

    ghost function View(): State
      reads this, buffers
    {
      State(buffers[..], latest, writing, writeVersion, reading, readVersion,
            producer, consumer, published, call, results)
    }

    ghost function Size(): nat
      reads this, buffers
    {
      if buffers.Length == SLOTS then |buffers[0]| else 0
    }

    ghost predicate Valid()
      reads this, buffers
    {
      buffers.Length == SLOTS && Inv(View(), Size()) && writeVersion < VERSION_LIMIT
    }

    constructor (initial: Frame)
      ensures Valid() && fresh(buffers) && View() == Init(initial)
    {
      buffers := new Frame[SLOTS](_ => initial);
      latest := PackState(0, 0);
      writing, writeVersion, reading, readVersion := 1, 0, 2, 0;
      producer, consumer := ProducerIdle, ConsumerIdle;
      published, call, results := [initial], Call(0, 0, 0), [];
      new;
      assert buffers[..] == [initial, initial, initial];
      InitInv(initial);
    }

    // ----- the atomic steps

    method BeginPublish(value: Frame)
      requires Valid() && Enabled(View(), StartPublish(value))
      modifies this`producer
      ensures Valid() && View() == Apply(old(View()), StartPublish(value))
    {
      StepKeepsInv(View(), StartPublish(value), Size());
      producer := Filling(value, 0);
    }

    method StoreWord()
      requires Valid() && Enabled(View(), FillWord)
      modifies this`producer, buffers
      ensures Valid() && Size() == old(Size()) && View() == Apply(old(View()), FillWord)
    {
      ghost var before := View();
      StepKeepsInv(before, FillWord, Size());
      assert buffers[writing] == before.slots[writing];
      buffers[writing] := buffers[writing][producer.copied := producer.value[producer.copied]];
      producer := Filling(producer.value, producer.copied + 1);
      assert buffers[..] == before.slots[writing := buffers[writing]];
      assert View() == Apply(before, FillWord);
      assert buffers[0] == View().slots[0];
    }

    method ExchangeLatest()
      requires Valid() && Enabled(View(), Exchange) && writeVersion + 1 < VERSION_LIMIT
      modifies this`latest, this`writing, this`writeVersion, this`producer, this`published
      ensures Valid() && View() == Apply(old(View()), Exchange)
    {
      hide Inv;
      StepKeepsInv(View(), Exchange, Size());
      var nextVersion := writeVersion + 1;
      var previous := latest;
      latest := PackState(nextVersion, writing);
      writeVersion := nextVersion;
      writing := StateIndex(previous);
      published, producer := published + [producer.value], ProducerIdle;
    }

    method BeginRead()
      requires Valid() && Enabled(View(), StartRead)
      modifies this`consumer, this`call
      ensures Valid() && View() == Apply(old(View()), StartRead)
    {
      StepKeepsInv(View(), StartRead, Size());
      consumer, call := Loading(0), Call(writeVersion, readVersion, 0);
    }

    /** Loads the word and compares its version with the one already read. */
    method LoadLatest()
      requires Valid() && Enabled(View(), Load)
      modifies this`consumer
      ensures Valid() && View() == Apply(old(View()), Load)
    {
      StepKeepsInv(View(), Load, Size());
      var observed := latest;
      var version := StateVersion(observed);
      consumer := if version == readVersion then Copying([]) else Comparing(consumer.attempt, observed);
    }

    method CompareExchangeLatest(spurious: bool)
      requires Valid() && Enabled(View(), CompareExchange(spurious))
      modifies this`latest, this`reading, this`readVersion, this`consumer, this`call
      ensures Valid() && View() == Apply(old(View()), CompareExchange(spurious))
    {
      hide Inv;
      StepKeepsInv(View(), CompareExchange(spurious), Size());
      var observed := consumer.observed;
      var version := StateVersion(observed);
      var replacement := PackState(version, reading);
      if !spurious && latest == observed {
        latest := replacement;
        reading := StateIndex(observed);
        readVersion := version;
        consumer := Copying([]);
      } else {
        consumer := AfterRefusal(consumer.attempt);
        call := call.(refused := call.refused + 1);
      }
    }

    method LoadWord()
      requires Valid() && Enabled(View(), CopyWord)
      modifies this`consumer
      ensures Valid() && View() == Apply(old(View()), CopyWord)
    {
      StepKeepsInv(View(), CopyWord, Size());
      assert buffers[reading] == View().slots[reading];
      consumer := Copying(consumer.out + [buffers[reading][|consumer.out|]]);
    }

    method EndRead()
      requires Valid() && Enabled(View(), FinishRead)
      modifies this`consumer, this`results
      ensures Valid() && View() == Apply(old(View()), FinishRead)
    {
      StepKeepsInv(View(), FinishRead, Size());
      results := results + [Result(consumer.out, readVersion, call, writeVersion)];
      consumer := ConsumerIdle;
    }

    method Perform(a: Action)
      requires Valid() && Enabled(View(), a)
      requires a.Exchange? ==> writeVersion + 1 < VERSION_LIMIT
      modifies this, buffers
      ensures Valid() && Size() == old(Size()) && View() == Apply(old(View()), a)
    {
      match a {
        case StartPublish(value) => BeginPublish(value);
        case FillWord => StoreWord();
        case Exchange => ExchangeLatest();
        case StartRead => BeginRead();
        case Load => LoadLatest();
        case CompareExchange(spurious) => CompareExchangeLatest(spurious);
        case CopyWord => LoadWord();
        case FinishRead => EndRead();
      }
    }

    /** One scheduled step of the other thread, if it can be taken now. */
    method TakeStep(a: Action, byProducer: bool)
      requires Valid()
      modifies this, buffers
      ensures Valid() && Size() == old(Size())
      ensures if byProducer then ReaderUntouched(old(View()), View()) else WriterUntouched(old(View()), View())
    {
      var enabled := IsReady(a);
      StepOrNothing(a, Size());
      if enabled && IsProducer(a) == byProducer && (a.Exchange? ==> writeVersion + 1 < VERSION_LIMIT) {
        Perform(a);
      }
    }

    lemma StepOrNothing(a: Action, size: nat)
      requires Inv(View(), size)
      ensures ReaderUntouched(View(), View()) && WriterUntouched(View(), View())
      ensures Enabled(View(), a) ==>
                if IsProducer(a) then ReaderUntouched(View(), Apply(View(), a)) else WriterUntouched(View(), Apply(View(), a))
    {
      if Enabled(View(), a) {
        StepKeepsPrivate(View(), a, size);
      }
    }

    /** The other thread runs: each scheduled step is taken if it is that thread's to take. */
    method Interfere(steps: seq<Action>, byProducer: bool)
      requires Valid()
      modifies this, buffers
      ensures Valid() && Size() == old(Size())
      ensures if byProducer then ReaderUntouched(old(View()), View()) else WriterUntouched(old(View()), View())
    {
      hide Inv;
      StepOrNothing(StartRead, Size());
      for i := 0 to |steps|
        invariant Valid() && Size() == old(Size())
        invariant if byProducer then ReaderUntouched(old(View()), View()) else WriterUntouched(old(View()), View())
      {
        TakeStep(steps[i], byProducer);
      }
    }

    method IsReady(a: Action) returns (b: bool)
      requires Valid()
      ensures b == Enabled(View(), a)
    {
      assert forall i :: 0 <= i < SLOTS ==> buffers[..][i] == buffers[i];
      match a {
        case StartPublish(value) => b := producer.ProducerIdle? && |value| == |buffers[writing]|;
        case FillWord => b := producer.Filling? && producer.copied < |producer.value|;
        case Exchange => b := producer.Filling? && producer.copied == |producer.value|;
        case StartRead => b := consumer.ConsumerIdle?;
        case Load => b := consumer.Loading?;
        case CompareExchange(_) => b := consumer.Comparing?;
        case CopyWord => b := consumer.Copying? && |consumer.out| < |buffers[reading]|;
        case FinishRead => b := consumer.Copying? && |consumer.out| == |buffers[reading]|;
      }
    }

    /** Copies the frame into the writer's slot, swaps that slot into the exchange and takes the
        one found there.  Whatever the reader does meanwhile, exactly this frame becomes the
        newest version. */
    method Publish(value: Frame, others: nat -> seq<Action>)
      requires Valid() && producer.ProducerIdle? && |value| == Size()
      requires writeVersion + 1 < VERSION_LIMIT
      modifies this, buffers
      ensures Valid() && Size() == old(Size()) && producer.ProducerIdle?
      ensures published == old(published) + [value] && writeVersion == old(writeVersion) + 1
    {
      hide Inv;
      SlotsAreFrames(View(), Size());
      BeginPublish(value);
      for k := 0 to |value|
        invariant Valid() && Size() == old(Size()) && producer == Filling(value, k)
        invariant |value| == Size()
        invariant published == old(published) && writeVersion == old(writeVersion)
      {
        Interfere(others(k), false);
        SlotsAreFrames(View(), Size());
        StoreWord();
      }
      Interfere(others(|value|), false);
      SlotsAreFrames(View(), Size());
      ExchangeLatest();
    }

    /** One pass of the retry loop: load, and if the version is new try to take its slot. */
    method Attempt(attempt: nat, others: nat -> seq<Action>, spurious: bool)
      requires Valid() && consumer == Loading(attempt)
      modifies this, buffers
      ensures Valid() && Size() == old(Size())
      ensures consumer == (if consumer.Loading? then Loading(attempt + 1) else Copying([]))
      ensures call.newest == old(call).newest && call.previous == old(call).previous
      ensures results == old(results) && old(published) <= published && old(readVersion) <= readVersion
    {
      hide Inv;
      Interfere(others(2 * attempt), true);
      SlotsAreFrames(View(), Size());
      LoadLatest();
      if consumer.Comparing? {
        Interfere(others(2 * attempt + 1), true);
        SlotsAreFrames(View(), Size());
        StepKeepsPrivate(View(), CompareExchange(spurious), Size());
        CompareExchangeLatest(spurious);
      }
    }

    /** Copies the reader's slot out; the producer may publish meanwhile but never writes it. */
    method CopyOut(others: nat -> seq<Action>) returns (out: Frame)
      requires Valid() && consumer == Copying([])
      modifies this, buffers
      ensures Valid() && Size() == old(Size()) && consumer == Copying(out)
      ensures reading < buffers.Length && out == buffers[reading]
      ensures call == old(call) && readVersion == old(readVersion)
      ensures results == old(results) && old(published) <= published
    {
      out := [];
      while |out| < |buffers[reading]|
        invariant Valid() && Size() == old(Size()) && |buffers[reading]| == Size()
        invariant consumer == Copying(out) && call == old(call) && readVersion == old(readVersion)
        invariant results == old(results) && old(published) <= published
        decreases Size() - |out|
      {
        Interfere(others(2 * ATTEMPTS + |out|), true);
        LoadWord();
        out := consumer.out;
      }
      assert buffers[reading] == View().slots[reading];
    }

    /** At most three attempts to take the newest slot, then one copy.  The frame returned was
        published whole; it was the newest at some time during the call, or three attempts were
        refused and it is the frame read before. */
    method ReadInto(others: nat -> seq<Action>, spurious: nat -> bool) returns (out: Frame)
      requires Valid() && consumer.ConsumerIdle?
      modifies this, buffers
      ensures Valid() && Size() == old(Size()) && consumer.ConsumerIdle?
      ensures old(readVersion) <= readVersion < |published| && old(published) <= published
      ensures out == published[readVersion]
      ensures |old(published)| - 1 <= readVersion || (call.refused == 3 && readVersion == old(readVersion))
      ensures results == old(results) + [Result(out, readVersion, call, writeVersion)]
    {
      BeginRead();
      var attempt := 0;
      while attempt < ATTEMPTS && consumer.Loading?
        invariant Valid() && Size() == old(Size())
        invariant attempt <= ATTEMPTS && consumer == (if consumer.Loading? then Loading(attempt) else Copying([]))
        invariant call.newest == old(writeVersion) && call.previous == old(readVersion)
        invariant results == old(results) && old(published) <= published && old(readVersion) <= readVersion
      {
        Attempt(attempt, others, spurious(attempt));
        attempt := attempt + 1;
      }
      out := CopyOut(others);
      EndRead();
    }
  }
}
