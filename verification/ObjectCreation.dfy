/** Creation of objects through registered class factories: the reference-count protocol. */
module ObjectCreation {
  import opened Basics

  /** Class and interface identifiers; they compare by value. */
  type Id = nat

  const INITIALIZABLE: Id := 0

  datatype ErrorCode = Ok | ClassNotReg | Error(code: nat)

  /** What a factory's instances answer: to their creation, to a query for an interface, and to
      their initialization. */
  datatype ClassSpec = ClassSpec(creation: ErrorCode, query: Id -> ErrorCode, initialization: ErrorCode)

  /** A call on an instance. */
  datatype Event = Query(iId: Id, result: ErrorCode) | Initialize(result: ErrorCode) | Release

  /** The reference count after the given calls, starting from `refs`. A successful query adds a
      reference and a release removes one; nothing once the count has dropped to zero, when the
      instance is gone and a further call is an error. */
  function Replay(events: seq<Event>, refs: nat): Option<nat> {
    if events == [] then Some(refs)
    else if refs == 0 then None
    else
      match events[0]
      case Query(_, result) => Replay(events[1..], if result == Ok then refs + 1 else refs)
      case Initialize(_) => Replay(events[1..], refs)
      case Release => Replay(events[1..], refs - 1)
  }

  lemma {:induction false} ReplayOfConcat(a: seq<Event>, b: seq<Event>, refs: nat)
    ensures Replay(a + b, refs)
         == match Replay(a, refs)
            case None => None
            case Some(r) => Replay(b, r)
  {
    if a == [] {
      assert a + b == b;
    } else if refs > 0 {
      assert (a + b)[1..] == a[1..] + b;
      var next := match a[0]
        case Query(_, result) => if result == Ok then refs + 1 else refs
        case Initialize(_) => refs
        case Release => refs - 1;
      ReplayOfConcat(a[1..], b, next);
    }
  }

  /** An instance whose calls replay without an error is destroyed at most once, by the last of
      them, and that one is a release. */
  lemma {:induction false} DestroyedByLastRelease(a: seq<Event>, b: seq<Event>, refs: nat)
    requires refs > 0 && Replay(a + b, refs).Some? && Replay(a, refs) == Some(0)
    ensures b == [] && a != [] && a[|a| - 1] == Release
  {
    ReplayOfConcat(a, b, refs);
    assert a == a[..|a| - 1] + [a[|a| - 1]];
    ReplayOfConcat(a[..|a| - 1], [a[|a| - 1]], refs);
  }

  // ----- the protocol

  predicate IsInitializable(spec: ClassSpec) {
    spec.query(INITIALIZABLE) == Ok
  }

  /** The error code of a creation whose class is registered. */
  function Outcome(spec: ClassSpec, iId: Id): ErrorCode {
    if spec.creation != Ok then spec.creation
    else if IsInitializable(spec) && spec.initialization != Ok then spec.initialization
    else spec.query(iId)
  }

  /** The calls a creation makes on the new instance. */
  function CreationEvents(spec: ClassSpec, iId: Id): seq<Event> {
    [Query(INITIALIZABLE, spec.query(INITIALIZABLE))]
    + (if !IsInitializable(spec) then []
       else [Initialize(spec.initialization)] + (if spec.initialization != Ok then [Release] else []) + [Release])
    + (if IsInitializable(spec) && spec.initialization != Ok then []
       else [Query(iId, spec.query(iId)), Release])
  }

  /** Main result on the protocol: on every outcome the calls replay without an error; the new
      instance ends with one reference if the creation succeeds, and destroyed if it fails. */
  lemma CreationBalances(spec: ClassSpec, iId: Id)
    requires spec.creation == Ok
    ensures Replay(CreationEvents(spec, iId), 1) == Some(if Outcome(spec, iId) == Ok then 1 else 0)
  {
    var events := CreationEvents(spec, iId);
    ReplayOfLast(iId, spec.query(iId));
    if !IsInitializable(spec) {
      assert events[1..] == [Query(iId, spec.query(iId)), Release];
    } else if spec.initialization == Ok {
      assert events[1..][1..][1..] == [Query(iId, spec.query(iId)), Release];
      assert Replay(events[1..][1..], 2) == Replay(events[1..][1..][1..], 1);
    } else {
      assert events[1..][1..] == [Release] + [Release] && [Release] + [] == [Release];
      ReplayOfRelease([Release], 2);
      ReplayOfRelease([], 1);
      assert Replay(events[1..][1..], 2) == Some(0);
    }
  }

  lemma ReplayOfRelease(rest: seq<Event>, refs: nat)
    requires refs > 0
    ensures Replay([Release] + rest, refs) == Replay(rest, refs - 1)
  {
    assert ([Release] + rest)[1..] == rest;
  }

  lemma ReplayOfLast(iId: Id, result: ErrorCode)
    ensures Replay([Query(iId, result), Release], 1) == Some(if result == Ok then 1 else 0)
  {
    assert [Query(iId, result), Release][1..] == [Release] + [];
    ReplayOfRelease([], 1);
    ReplayOfRelease([], 2);
  }

  /** Which step gives the error code: the first one that fails; a class without the
      initialization interface is not initialized, and that is no error. */
  lemma FirstFailureDecides(spec: ClassSpec, iId: Id)
    ensures spec.creation != Ok ==> Outcome(spec, iId) == spec.creation
    ensures spec.creation == Ok && spec.query(INITIALIZABLE) == Ok && spec.initialization != Ok
        ==> Outcome(spec, iId) == spec.initialization
    ensures spec.creation == Ok && (spec.query(INITIALIZABLE) == Ok ==> spec.initialization == Ok)
        ==> Outcome(spec, iId) == spec.query(iId)
  {
  }

  function Initializations(events: seq<Event>): nat {
    if events == [] then 0 else (if events[0].Initialize? then 1 else 0) + Initializations(events[1..])
  }

  /** An instance with the initialization interface is initialized exactly once, right after the
      query for it, and before the query for the interface asked for; any other not at all. */
  lemma InitializedOnce(spec: ClassSpec, iId: Id)
    ensures var events := CreationEvents(spec, iId);
            && events != [] && events[0] == Query(INITIALIZABLE, spec.query(INITIALIZABLE))
            && Initializations(events) == (if spec.query(INITIALIZABLE) == Ok then 1 else 0)
            && (spec.query(INITIALIZABLE) == Ok ==> |events| > 1 && events[1] == Initialize(spec.initialization))
            && (spec.query(INITIALIZABLE) == Ok && spec.initialization != Ok ==> events[2..] == [Release, Release])
            && (spec.query(INITIALIZABLE) == Ok && spec.initialization == Ok ==>
                 events[2..] == [Release, Query(iId, spec.query(iId)), Release])
            && (spec.query(INITIALIZABLE) != Ok ==> events[1..] == [Query(iId, spec.query(iId)), Release])
  {
    var events := CreationEvents(spec, iId);
    var last := [Query(iId, spec.query(iId)), Release];
    assert last[1..] == [Release] && [Release][1..] == [];
    assert Initializations([Release]) == 0 && Initializations(last) == 0;
    if spec.query(INITIALIZABLE) != Ok {
      assert events[1..] == last;
    } else if spec.initialization == Ok {
      assert events[1..][1..] == [Release] + last && ([Release] + last)[1..] == last;
      assert Initializations([Release] + last) == 0;
      assert Initializations(events[1..]) == 1;
    } else {
      assert events[1..][1..] == [Release, Release] && [Release, Release][1..] == [Release];
      assert Initializations([Release, Release]) == 0;
      assert Initializations(events[1..]) == 1;
    }
  }

  class Instance {
    const spec: ClassSpec
    var refs: nat
    /** Calls so far. */
    ghost var events: seq<Event>

    /** The count is what the calls make it, and none of them came after the destruction. */
    ghost predicate Valid()
      reads this
    {
      Replay(events, 1) == Some(refs)
    }

    constructor (spec: ClassSpec)
      ensures Valid() && this.spec == spec && refs == 1 && events == []
    {
      this.spec, refs, events := spec, 1, [];
    }

    method QueryInterface(iId: Id) returns (result: ErrorCode)
      requires Valid() && refs > 0
      modifies this
      ensures Valid() && result == spec.query(iId) && events == old(events) + [Query(iId, result)]
      ensures refs == old(refs) + if result == Ok then 1 else 0
    {
      result := spec.query(iId);
      if result == Ok {
        refs := refs + 1;
      }
      ReplayOfConcat(events, [Query(iId, result)], 1);
      events := events + [Query(iId, result)];
    }

    method Init() returns (result: ErrorCode)
      requires Valid() && refs > 0
      modifies this
      ensures Valid() && result == spec.initialization && events == old(events) + [Initialize(result)]
      ensures refs == old(refs)
    {
      result := spec.initialization;
      ReplayOfConcat(events, [Initialize(result)], 1);
      events := events + [Initialize(result)];
    }

    method Drop()
      requires Valid() && refs > 0
      modifies this
      ensures Valid() && events == old(events) + [Release] && refs == old(refs) - 1
    {
      refs := refs - 1;
      ReplayOfConcat(events, [Release], 1);
      events := events + [Release];
    }
  }

  class ClassFactory {
    const spec: ClassSpec
    var refs: nat

    constructor (spec: ClassSpec)
      ensures this.spec == spec && refs == 1
    {
      this.spec, refs := spec, 1;
    }

    method AddRef()
      requires refs > 0
      modifies this
      ensures refs == old(refs) + 1
    {
      refs := refs + 1;
    }

    method Drop()
      requires refs > 0
      modifies this
      ensures refs == old(refs) - 1
    {
      refs := refs - 1;
    }

    method CreateInstance() returns (result: ErrorCode, made: Instance?)
      requires refs > 0
      ensures result == spec.creation && (result == Ok <==> made != null)
      ensures made != null ==> fresh(made) && made.Valid() && made.spec == spec && made.refs == 1 && made.events == []
    {
      result, made := spec.creation, null;
      if result == Ok {
        made := new Instance(spec);
      }
    }
  }

  class Runtime {
    var registry: map<Id, ClassFactory>
    /** All instances ever created, and the references that are out. */
    ghost var created: set<Instance>
    ghost var held: multiset<Instance>

    /** Every registered factory is alive. Every instance has as many references as are out; it
        is destroyed if and only if none is, and was not called since. */
    ghost predicate Balanced()
      reads this, registry.Values, created
    {
      && (forall f <- registry.Values :: f.refs > 0)
      && (forall o <- created :: o.Valid() && o.refs == held[o])
      && (forall o <- held :: o in created)
    }

    constructor ()
      ensures Balanced() && registry == map[] && created == {} && held == multiset{}
    {
      registry, created, held := map[], {}, multiset{};
    }

    method QueryFactoryForClass(clsId: Id) returns (result: ErrorCode, factory: ClassFactory?)
      requires clsId in registry ==> registry[clsId].refs > 0
      modifies registry.Values
      ensures if clsId !in registry then result == ClassNotReg && factory == null
              else result == Ok && factory == registry[clsId] && factory.refs == old(factory.refs) + 1
      ensures forall f <- registry.Values :: f != factory ==> f.refs == old(f.refs)
    {
      if clsId !in registry {
        return ClassNotReg, null;
      }
      factory := registry[clsId];
      factory.AddRef();
      return Ok, factory;
    }

    /** Makes an instance through the registered factory, whose reference is given back. */
    method Instantiate(clsId: Id) returns (result: ErrorCode, inst: Instance?)
      requires forall f <- registry.Values :: f.refs > 0
      modifies registry.Values
      ensures forall f <- registry.Values :: f.refs == old(f.refs)
      ensures result == if clsId in registry then registry[clsId].spec.creation else ClassNotReg
      ensures inst != null <==> result == Ok
      ensures inst != null ==> clsId in registry && fresh(inst) && inst.Valid() && inst.spec == registry[clsId].spec
                               && inst.refs == 1 && inst.events == []
    {
      var factory: ClassFactory?;
      inst := null;
      result, factory := QueryFactoryForClass(clsId);
      if result != Ok {
        return;
      }
      result, inst := factory.CreateInstance();
      factory.Drop();
    }

    /** Creates an instance and hands out one reference to it, or none on an error. */
    method CreateInstance(clsId: Id, iId: Id) returns (result: ErrorCode, res: Instance?, ghost made: Instance?)
      requires Balanced()
      modifies this`created, this`held, registry.Values
      ensures Balanced() && (forall f <- registry.Values :: f.refs == old(f.refs))
      ensures result == if clsId in registry then Outcome(registry[clsId].spec, iId) else ClassNotReg
      ensures res == if result == Ok then made else null
      ensures made != null <==> clsId in registry && registry[clsId].spec.creation == Ok
      ensures if made == null then created == old(created) && held == old(held)
              else
                && fresh(made) && created == old(created) + {made}
                && held == old(held)[made := made.refs]
                && made.events == CreationEvents(made.spec, iId) && made.spec == registry[clsId].spec
                && made.refs == (if result == Ok then 1 else 0)
    {
      hide Replay, CreationEvents, IsInitializable;
      res, made := null, null;
      var inst: Instance?;
      result, inst := Instantiate(clsId);
      if result != Ok {
        return;
      }
      made := inst;
      result := Prepare(inst, iId);
      if result == Ok {
        res := inst;
      }
      Enter(made);
    }

    /** Enters a new instance and the references to it. */
    ghost method Enter(inst: Instance)
      requires Balanced() && inst !in created && inst.Valid()
      modifies this`created, this`held
      ensures Balanced() && created == old(created) + {inst} && held == old(held)[inst := inst.refs]
    {
      created := created + {inst};
      held := held[inst := inst.refs];
    }

    /** What follows the instantiation: initialization where there is such an interface, then the
        query for the interface that was asked for. */
    static method Prepare(inst: Instance, iId: Id) returns (result: ErrorCode)
      requires inst.Valid() && inst.refs == 1 && inst.events == [] && inst.spec.creation == Ok
      modifies inst
      ensures inst.Valid() && result == Outcome(inst.spec, iId)
      ensures inst.events == CreationEvents(inst.spec, iId)
      ensures inst.refs == if result == Ok then 1 else 0
    {
      result := inst.QueryInterface(INITIALIZABLE);
      if result == Ok {
        result := inst.Init();
        if result != Ok {
          inst.Drop();
        }
        inst.Drop();
        if result != Ok {
          return;
        }
      }
      result := inst.QueryInterface(iId);
      if result != Ok {
        inst.Drop();
        return;
      }
      inst.Drop();
    }

    /** A client queries an interface through a reference it has. */
    method ClientQuery(o: Instance, iId: Id) returns (result: ErrorCode)
      requires Balanced() && o in held
      modifies this`held, o
      ensures Balanced() && result == o.spec.query(iId)
      ensures held == old(held) + if result == Ok then multiset{o} else multiset{}
    {
      result := o.QueryInterface(iId);
      held := held + if result == Ok then multiset{o} else multiset{};
    }

    /** A client gives up a reference it has; the instance goes with the last one. */
    method ClientRelease(o: Instance)
      requires Balanced() && o in held
      modifies this`held, o
      ensures Balanced() && held == old(held) - multiset{o}
      ensures o.refs == 0 <==> o !in held
    {
      o.Drop();
      held := held - multiset{o};
    }
  }
}
