/** The accessor state machine that the built-in generator writes into each
    partial class, for one signal: a connected flag, a cached field behind the
    `On<Signal>` property, and the `Connect<Signal>` method that creates the
    subject on first use. */
module BuiltInRuntime {

  /** An R3 `Subject`, reduced to the emit calls subscribed to it. */
  class Subject {
    var subscribers: seq<string>

    constructor()
      ensures subscribers == []
    {
      subscribers := [];
    }

    /** `subject.Subscribe(value => <emitCall>)`. */
    method Subscribe(emitCall: string)
      modifies this
      ensures subscribers == old(subscribers) + [emitCall]
    {
      subscribers := subscribers + [emitCall];
    }
  }

  /** The members emitted for one signal, as state: `_<signal>Connected`,
      `_on<Signal>`, and a count of the subjects `Connect<Signal>` created. */
  class SignalBinding {
    const emitCall: string
    var connected: bool
    var cached: Subject?
    var created: nat

    /** The flag is set exactly when the field holds the subject, and that
        subject carries the one subscription. */
    predicate Valid()
      reads this, cached
    {
      && (connected <==> cached != null)
      && (cached == null ==> created == 0)
      && (cached != null ==> created == 1 && cached.subscribers == [emitCall])
    }

    constructor(emitCall: string)
      ensures Valid()
      ensures this.emitCall == emitCall && !connected && cached == null && created == 0
    {
      this.emitCall := emitCall;
      connected := false;
      cached := null;
      created := 0;
    }

    /** `Connect<Signal>()`: the first call sets the flag and returns a new
        subject subscribed to the emit call; a later call returns the field as
        it stands. */
    method Connect() returns (s: Subject?)
      modifies this
      ensures cached == old(cached)
      ensures !old(connected) ==> connected && fresh(s) && s.subscribers == [emitCall] && created == old(created) + 1
      ensures old(connected) ==> connected && s == cached && created == old(created)
    {
      if !connected {
        connected := true;
        var subject := new Subject();
        subject.Subscribe(emitCall);
        created := created + 1;
        return subject;
      }
      return cached;
    }

    /** The `On<Signal>` property, `_on<Signal> ??= Connect<Signal>()`: the
        first access creates the one subject, every later access returns it. */
    method Access() returns (s: Subject)
      requires Valid()
      modifies this
      ensures Valid()
      ensures s == cached && created == 1 && s.subscribers == [emitCall]
      ensures old(cached) == null ==> fresh(s)
      ensures old(cached) != null ==> s == old(cached)
    {
      if cached == null {
        var c := Connect();
        cached := c;
      }
      s := cached;
    }
  }

  /** However often the property is read, one subject is created and every
      read returns it. */
  method RepeatedAccess(emitCall: string, extra: nat) returns (subjects: seq<Subject>)
    ensures |subjects| == extra + 1
    ensures forall k :: 0 <= k < |subjects| ==> subjects[k] == subjects[0]
    ensures subjects[0].subscribers == [emitCall]
  {
    var binding := new SignalBinding(emitCall);
    var first := binding.Access();
    subjects := [first];
    for i := 0 to extra
      invariant binding.Valid() && binding.cached == first
      invariant |subjects| == i + 1
      invariant forall k :: 0 <= k < |subjects| ==> subjects[k] == first
      invariant first.subscribers == [emitCall]
    {
      var s := binding.Access();
      subjects := subjects + [s];
    }
  }
}
