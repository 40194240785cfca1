/** The process-wide registry of singletons: a name -> id -> instance index, a dependency graph over
    ids, and a count per singleton of the singletons that depend on it. The destructor erases
    entries in repeated passes over the id-ordered map, an entry going once its count reaches zero. */
module Singletons {
  import opened Wrappers
  import opened DependencyGraph

  /** An untyped instance pointer. */
  type Instance = nat
  const NULLPTR: Instance := 0

  datatype Singleton = Singleton(value: Instance, refCount: int)

  /** The container's fields as a value; the class below holds them as mutable state. */
  datatype Container = Container(
    stringMap: map<string, int>,
    singletonMap: map<int, Singleton>,
    dependencySetMap: Graph,
    nextId: nat)
  {
    /** `stringMap[name]`: looking a missing name up inserts it with id 0. */
    function Touch(name: string): Container {
      if name in stringMap then this else this.(stringMap := stringMap[name := 0])
    }

    function Add(name: string, instance: Instance): Container {
      if name in stringMap then this
      else Container(stringMap[name := nextId], singletonMap[nextId := Singleton(instance, 0)],
                     dependencySetMap, nextId + 1)
    }

    function Set(name: string, instance: Instance): Container
      requires name in stringMap ==> stringMap[name] in singletonMap
    {
      if name !in stringMap then Add(name, instance)
      else var id := stringMap[name];
           this.(singletonMap := singletonMap[id := singletonMap[id].(value := instance)])
    }

    function Get(name: string): Instance
      requires name in stringMap ==> stringMap[name] in singletonMap
    {
      if name in stringMap then singletonMap[stringMap[name]].value else NULLPTR
    }

    /** `a` now depends on `b`; a repeated dependency changes nothing. */
    function Link(a: int, b: int): Container {
      if Edge(dependencySetMap, a, b) then this
      else this.(dependencySetMap := AddEdge(dependencySetMap, a, b),
                 singletonMap := Adjust(singletonMap, b, 1))
    }

    function DependOn(instance: string, name: string): Container {
      var named := Touch(instance).Touch(name);
      named.Link(named.stringMap[instance], named.stringMap[name])
    }

    /** Names lead to entries, and so does every dependency: true of every state there is. */
    ghost predicate Indexed() {
      && (forall name :: name in stringMap ==> stringMap[name] in singletonMap)
      && EdgesWithin(dependencySetMap, singletonMap.Keys)
      && (stringMap != map[] ==> 0 in singletonMap)
      && (stringMap == map[] ==> nextId == 0 && singletonMap == map[])
    }

    /** Each count is the number of instances whose dependency set holds the entry. */
    ghost predicate Counted() {
      && EdgesWithin(dependencySetMap, singletonMap.Keys)
      && (forall id :: id in singletonMap ==> CountOk(id))
    }

    predicate CountOk(id: int)
      requires id in singletonMap
    {
      singletonMap[id].refCount == |Dependents(dependencySetMap, id)|
    }

    /** The same without the edge from entry 0 to itself. */
    function Reduced(): Container {
      this.(dependencySetMap := DropSelfEdge(dependencySetMap, 0))
    }

    /** All counts are right but for entry 0, which depends on itself and is not counted for it. */
    ghost predicate Skewed() {
      Edge(dependencySetMap, 0, 0) && 0 in singletonMap && Reduced().Counted()
    }

    ghost predicate Accounted() {
      Counted() || Skewed()
    }

    /** The dependencies that the counts stand for. */
    ghost function Binding(): Graph {
      if Counted() then dependencySetMap else DropSelfEdge(dependencySetMap, 0)
    }

    /** The container with just these dependencies. */
    ghost function Bound(): Container {
      this.(dependencySetMap := Binding())
    }

    /** Ids still to be handed out are unused. */
    ghost predicate IdsBelowNext() {
      IdsBelow(nextId)
    }

    ghost predicate IdsBelow(limit: nat) {
      forall id :: id in singletonMap ==> 0 <= id < limit
    }

    predicate CanErase(id: int) {
      id in singletonMap && singletonMap[id].refCount <= 0
    }

    /** Erase `id`, giving up its dependencies. */
    function Erase(id: int): Container {
      this.(singletonMap := AdjustAll(singletonMap, DependenciesOf(dependencySetMap, id), -1) - {id},
            dependencySetMap := DropEdges(dependencySetMap, id))
    }
  }

  const EMPTY := Container(map[], map[], map[], 0)

  /** `singletonMap[id].refCount += delta`, creating a missing entry as the map's operator does. */
  function Adjust(m: map<int, Singleton>, id: int, delta: int): map<int, Singleton> {
    if id in m then m[id := m[id].(refCount := m[id].refCount + delta)]
    else m[id := Singleton(NULLPTR, delta)]
  }

  /** `Adjust` for every id of a set. */
  function AdjustAll(m: map<int, Singleton>, ids: set<int>, delta: int): map<int, Singleton> {
    map id | id in m.Keys + ids ::
      if id in ids then Adjust(m, id, delta)[id] else m[id]
  }

  // ----- Registration ---------------------------------------------------------------------------

  datatype Op =
    | AddSingleton(name: string, instance: Instance)
    | SetSingleton(name: string, instance: Instance)
    | DependOn(dependent: string, name: string)

  function Apply(c: Container, op: Op): Container
    requires c.Indexed()
  {
    match op
    case AddSingleton(name, instance) => c.Add(name, instance)
    case SetSingleton(name, instance) => c.Set(name, instance)
    case DependOn(dependent, name) => c.DependOn(dependent, name)
  }

  /** The state after a run, starting from the empty container. */
  ghost function Run(ops: seq<Op>): (c: Container)
    ensures c.Indexed()
  {
    if ops == [] then EMPTY
    else
      var before := Run(ops[..|ops| - 1]);
      IndexedKept(before, ops[|ops| - 1]);
      Apply(before, ops[|ops| - 1])
  }

  lemma IndexedKept(c: Container, op: Op)
    requires c.Indexed()
    ensures Apply(c, op).Indexed()
  {
    match op
    case AddSingleton(name, instance) => IndexedAdd(c, name, instance);
    case SetSingleton(name, instance) => IndexedSet(c, name, instance);
    case DependOn(dependent, name) => IndexedDependOn(c, dependent, name);
  }

  lemma IndexedAdd(c: Container, name: string, instance: Instance)
    requires c.Indexed()
    ensures c.Add(name, instance).Indexed()
  {
    assert name in c.Add(name, instance).stringMap;
  }

  lemma IndexedSet(c: Container, name: string, instance: Instance)
    requires c.Indexed()
    ensures c.Set(name, instance).Indexed()
  {
    IndexedAdd(c, name, instance);
    assert name in c.Set(name, instance).stringMap;
  }

  lemma IndexedDependOn(c: Container, dependent: string, name: string)
    requires c.Indexed()
    ensures c.DependOn(dependent, name).Indexed()
  {
    var named := c.Touch(dependent).Touch(name);
    TouchIndexed(c, dependent, name);
    TouchKeeps(c.Touch(dependent), dependent, name);
    assert name in named.stringMap;
    hide Container.Touch, Container.Link, EdgesWithin;
    LinkWithin(named, named.stringMap[dependent], named.stringMap[name]);
  }

  lemma LinkWithin(c: Container, a: int, b: int)
    requires EdgesWithin(c.dependencySetMap, c.singletonMap.Keys) && a in c.singletonMap.Keys + {b}
    ensures var after := c.Link(a, b);
            && after.stringMap == c.stringMap && after.nextId == c.nextId
            && after.singletonMap.Keys == c.singletonMap.Keys + {b}
            && EdgesWithin(after.dependencySetMap, after.singletonMap.Keys)
  {
    assert Edge(c.dependencySetMap, a, b) ==> b in c.singletonMap.Keys;
  }

  /** Looking a name up does not change where another one leads. */
  lemma TouchKeeps(c: Container, known: string, name: string)
    requires known in c.stringMap
    ensures known in c.Touch(name).stringMap && c.Touch(name).stringMap[known] == c.stringMap[known]
  {
  }

  /** Names that were looked up lead to entries, or to id 0 of a container without any. */
  lemma TouchIndexed(c: Container, dependent: string, name: string)
    requires c.Indexed()
    ensures var named := c.Touch(dependent).Touch(name);
            && (forall n :: n in named.stringMap ==> named.stringMap[n] in c.singletonMap || named.stringMap[n] == 0)
            && (c.stringMap == map[] ==> named.stringMap[dependent] == 0 && named.stringMap[name] == 0)
            && (c.stringMap != map[] ==> 0 in c.singletonMap)
  {
  }

  /** One new edge adds exactly one dependent, at its target. */
  lemma LinkCounts(c: Container, a: int, b: int)
    requires c.Counted() && a in c.singletonMap && b in c.singletonMap
    ensures c.Link(a, b).Counted()
    ensures c.Link(a, b).singletonMap.Keys == c.singletonMap.Keys
  {
    if !Edge(c.dependencySetMap, a, b) {
      var after := c.Link(a, b);
      forall id | id in after.singletonMap
        ensures after.CountOk(id)
      {
        AddEdgeDependents(c.dependencySetMap, a, b, id);
        assert c.CountOk(id);
      }
    }
  }

  /** A step keeps the counts right unless it is a `DependOn` before anything was added: such a
      step, and only such a step, hands out id 0 behind the id counter's back. */
  lemma StepKeepsCounts(c: Container, op: Op)
    requires c.Indexed() && c.Counted() && c.IdsBelowNext()
    ensures Apply(c, op).Counted()
    ensures Apply(c, op).IdsBelowNext() <==> (op.DependOn? ==> c.nextId > 0)
  {
    match op
    case AddSingleton(name, instance) => AddKeepsCounts(c, name, instance);
    case SetSingleton(name, instance) => AddKeepsCounts(c, name, instance);
    case DependOn(dependent, name) =>
      if c.nextId > 0 {
        RegisteredDependOnCounts(c, dependent, name);
      } else {
        FirstDependOn(c, dependent, name);
      }
  }

  lemma RegisteredDependOnCounts(c: Container, dependent: string, name: string)
    requires c.Indexed() && c.Counted() && c.IdsBelowNext() && c.nextId > 0
    ensures c.DependOn(dependent, name).Counted() && c.DependOn(dependent, name).IdsBelowNext()
  {
    var named := c.Touch(dependent).Touch(name);
    LinkCounts(named, named.stringMap[dependent], named.stringMap[name]);
  }

  /** Depending before anything is registered makes the made-up entry 0 depend on itself. */
  lemma FirstDependOn(c: Container, dependent: string, name: string)
    requires c.Indexed() && c.Counted() && c.IdsBelowNext() && c.nextId == 0
    ensures var after := c.DependOn(dependent, name);
            && after.Counted()
            && after.singletonMap == map[0 := Singleton(NULLPTR, 1)]
            && Edge(after.dependencySetMap, 0, 0)
  {
    assert c.singletonMap.Keys == {};
    var named := c.Touch(dependent).Touch(name);
    assert named.stringMap[dependent] == named.stringMap[name] == 0;
    SelfLink(named);
  }

  lemma SelfLink(c: Container)
    requires c.Counted() && c.singletonMap == map[]
    ensures c.Link(0, 0).Counted() && c.Link(0, 0).singletonMap == map[0 := Singleton(NULLPTR, 1)]
    ensures Edge(c.Link(0, 0).dependencySetMap, 0, 0)
  {
    assert !Edge(c.dependencySetMap, 0, 0);
    AddEdgeDependents(c.dependencySetMap, 0, 0, 0);
    assert Dependents(c.dependencySetMap, 0) == {};
  }

  lemma AddKeepsCounts(c: Container, name: string, instance: Instance)
    requires c.Counted() && c.IdsBelowNext()
    ensures c.Add(name, instance).Counted() && c.Add(name, instance).IdsBelowNext()
  {
    if name !in c.stringMap {
      assert c.nextId !in c.singletonMap;
      if a :| Edge(c.dependencySetMap, a, c.nextId) {
        assert false;
      }
      assert Dependents(c.dependencySetMap, c.nextId) == {};
    }
  }

  /** In a skewed container entry 0 counts exactly one dependent too few, and no other entry does. */
  lemma SkewExact(c: Container)
    requires c.Skewed()
    ensures !c.Counted()
    ensures forall id :: id in c.singletonMap ==>
              c.singletonMap[id].refCount == |Dependents(c.dependencySetMap, id)| - if id == 0 then 1 else 0
  {
    forall id | id in c.singletonMap
      ensures c.singletonMap[id].refCount == |Dependents(c.dependencySetMap, id)| - if id == 0 then 1 else 0
    {
      DropSelfEdgeDependents(c.dependencySetMap, 0, id);
      assert c.Reduced().CountOk(id);
    }
    assert !c.CountOk(0);
  }

  /** The container after it was used before anything was added: at first entry 0 is the only one,
      and counted as depending on itself; handing out id 0 then resets that count, once. */
  ghost predicate Spoiling(c: Container) {
    && Edge(c.dependencySetMap, 0, 0) && c.IdsBelow(if c.nextId == 0 then 1 else c.nextId)
    && if c.nextId == 0 then c.Counted() else c.Skewed()
  }

  lemma SpoilingKept(c: Container, op: Op)
    requires c.Indexed() && Spoiling(c)
    ensures Spoiling(Apply(c, op))
  {
    match op
    case AddSingleton(name, instance) => SpoilingAdd(c, name, instance);
    case SetSingleton(name, instance) =>
      if name in c.stringMap {
        SpoilingSet(c, name, instance);
      } else {
        SpoilingAdd(c, name, instance);
      }
    case DependOn(dependent, name) => SpoilingDependOn(c, dependent, name);
  }

  lemma SpoilingAdd(c: Container, name: string, instance: Instance)
    requires c.Indexed() && Spoiling(c)
    ensures Spoiling(c.Add(name, instance))
  {
    var g := c.dependencySetMap;
    if name !in c.stringMap {
      if c.nextId == 0 {
        assert Dependents(DropSelfEdge(g, 0), 0) == {};
      } else {
        AddKeepsCounts(c.Reduced(), name, instance);
        assert c.Add(name, instance).Reduced() == c.Reduced().Add(name, instance);
      }
    }
  }

  lemma SpoilingSet(c: Container, name: string, instance: Instance)
    requires c.Indexed() && Spoiling(c) && name in c.stringMap
    ensures Spoiling(c.Set(name, instance))
  {
    var after := c.Set(name, instance);
    assert c.Counted() ==> forall id :: id in after.singletonMap ==> c.CountOk(id) && after.CountOk(id);
    if c.nextId > 0 {
      assert forall id :: id in after.singletonMap ==> c.Reduced().CountOk(id) && after.Reduced().CountOk(id);
    }
  }

  lemma SpoilingDependOn(c: Container, dependent: string, name: string)
    requires c.Indexed() && Spoiling(c)
    ensures Spoiling(c.DependOn(dependent, name))
  {
    var named := c.Touch(dependent).Touch(name);
    var a, b := named.stringMap[dependent], named.stringMap[name];
    if !Edge(c.dependencySetMap, a, b) {
      LinkCounts(named.Reduced(), a, b);
      DropSelfEdgeCommutes(c.dependencySetMap, 0, a, b);
      assert named.Link(a, b).Reduced() == named.Reduced().Link(a, b);
    }
  }

  // ----- Which runs those are ---------------------------------------------------------------------

  predicate Mentions(op: Op, name: string) {
    op.name == name || (op.DependOn? && op.dependent == name)
  }

  ghost predicate Mentioned(ops: seq<Op>, name: string) {
    exists i :: 0 <= i < |ops| && Mentions(ops[i], name)
  }

  /** Operation i adds or sets a name that no earlier operation mentions. */
  ghost predicate AddsAt(ops: seq<Op>, i: int) {
    0 <= i < |ops| && !ops[i].DependOn? && !Mentioned(ops[..i], ops[i].name)
  }

  ghost predicate AddsSomething(ops: seq<Op>) {
    exists i :: AddsAt(ops, i)
  }

  predicate OpensWithDependOn(ops: seq<Op>) {
    ops != [] && ops[0].DependOn?
  }

  /** The run opens with a `DependOn` and later adds something. */
  ghost predicate Spoils(ops: seq<Op>) {
    OpensWithDependOn(ops) && AddsSomething(ops)
  }

  lemma MentionedNext(ops: seq<Op>, op: Op)
    ensures forall name :: Mentioned(ops + [op], name) <==> Mentioned(ops, name) || Mentions(op, name)
  {
    var longer := ops + [op];
    forall name | Mentioned(ops, name) || Mentions(op, name)
      ensures Mentioned(longer, name)
    {
      if i :| 0 <= i < |ops| && Mentions(ops[i], name) {
        assert Mentions(longer[i], name);
      } else {
        assert Mentions(longer[|ops|], name);
      }
    }
  }

  lemma AddsNext(ops: seq<Op>, op: Op)
    ensures AddsSomething(ops + [op]) <==> AddsSomething(ops) || (!op.DependOn? && !Mentioned(ops, op.name))
  {
    var longer := ops + [op];
    assert longer[..|ops|] == ops;
    forall i | 0 <= i < |ops|
      ensures AddsAt(longer, i) <==> AddsAt(ops, i)
    {
      assert longer[..i] == ops[..i];
    }
    if i :| AddsAt(ops, i) {
      assert AddsAt(longer, i);
    }
    assert AddsAt(longer, |ops|) <==> !op.DependOn? && !Mentioned(ops, op.name);
  }

  lemma NamesNext(c: Container, op: Op)
    requires c.Indexed()
    ensures forall name :: name in Apply(c, op).stringMap <==> name in c.stringMap || Mentions(op, name)
    ensures Apply(c, op).nextId == c.nextId + if !op.DependOn? && op.name !in c.stringMap then 1 else 0
  {
  }

  /** The names known after a run are those it mentioned, and ids were handed out exactly if some
      operation added a name not mentioned before. */
  lemma {:induction false} RunNames(ops: seq<Op>)
    ensures forall name :: name in Run(ops).stringMap <==> Mentioned(ops, name)
    ensures Run(ops).nextId > 0 <==> AddsSomething(ops)
  {
    if ops != [] {
      hide Mentions, Mentioned, AddsSomething, Apply, Container.Indexed;
      var front, last := ops[..|ops| - 1], ops[|ops| - 1];
      assert ops == front + [last];
      RunNames(front);
      MentionedNext(front, last);
      AddsNext(front, last);
      NamesNext(Run(front), last);
    } else {
      assert forall i :: !AddsAt(ops, i);
    }
  }

  /** Over every run from the empty container the counts are right, with one exception: in the runs
      that open with a `DependOn` and later add something they are right but for entry 0, which
      counts exactly one dependent - itself - too few. */
  lemma CountsAlongRuns(ops: seq<Op>)
    ensures Run(ops).Counted() <==> !Spoils(ops)
    ensures Run(ops).Skewed() <==> Spoils(ops)
  {
    RunPhases(ops);
    RunNames(ops);
    if Run(ops).Skewed() {
      SkewExact(Run(ops));
    }
  }

  lemma {:induction false} RunPhases(ops: seq<Op>)
    ensures OpensWithDependOn(ops) ==> Spoiling(Run(ops))
    ensures !OpensWithDependOn(ops) ==>
              Run(ops).Counted() && Run(ops).IdsBelowNext() && (ops != [] ==> Run(ops).nextId > 0)
  {
    if ops != [] {
      hide Container.Counted, Container.Skewed, Container.IdsBelow;
      var front, last := ops[..|ops| - 1], ops[|ops| - 1];
      var before := Run(front);
      RunPhases(front);
      if front == [] {
        StepKeepsCounts(before, last);
        if last.DependOn? {
          FirstDependOn(before, last.dependent, last.name);
        }
      } else if OpensWithDependOn(ops) {
        SpoilingKept(before, last);
      } else {
        StepKeepsCounts(before, last);
      }
    }
  }

  /** Setting a name is seen by every name that leads to the same entry, and by no other. */
  lemma SetThenGet(c: Container, name: string, instance: Instance, other: string)
    requires c.Indexed() && c.IdsBelowNext()
    ensures var after := c.Set(name, instance);
            after.Indexed() && after.Get(other) ==
              if after.stringMap[name] == (if other in after.stringMap then after.stringMap[other] else -1)
              then instance else c.Get(other)
  {
    IndexedKept(c, SetSingleton(name, instance));
    if other in c.stringMap {
      assert c.stringMap[other] in c.singletonMap;
    }
    if name in c.stringMap {
      assert c.stringMap[name] in c.singletonMap;
    }
  }

  /** Adding is seen under a new name, and under no other; adding a known name changes nothing. */
  lemma AddThenGet(c: Container, name: string, instance: Instance, other: string)
    requires c.Indexed() && c.IdsBelowNext()
    ensures c.Add(name, instance).Indexed()
    ensures c.Add(name, instance).Get(other) ==
              if name !in c.stringMap && other == name then instance else c.Get(other)
  {
    IndexedAdd(c, name, instance);
    if other in c.stringMap {
      assert c.stringMap[other] in c.singletonMap;
    }
  }

  // ----- Who depends on whom ----------------------------------------------------------------------

  /** `DependOn(x, y)`: x's entry now depends on y's. Known names lead where they led, unknown ones to
      entry 0; every other dependency, and every value, is as before; and only y's entry is counted, once
      for a new dependency. */
  lemma DependOnLinks(c: Container, x: string, y: string)
    requires c.Indexed()
    ensures var after := c.DependOn(x, y);
            && x in after.stringMap && y in after.stringMap
            && (forall n :: n in c.stringMap ==> n in after.stringMap && after.stringMap[n] == c.stringMap[n])
            && (x !in c.stringMap ==> after.stringMap[x] == 0) && (y !in c.stringMap ==> after.stringMap[y] == 0)
            && var a, b := after.stringMap[x], after.stringMap[y];
            && (forall u, v :: Edge(after.dependencySetMap, u, v) <==>
                  Edge(c.dependencySetMap, u, v) || (u == a && v == b))
            && (forall id :: id in c.singletonMap ==>
                  id in after.singletonMap && after.singletonMap[id].value == c.singletonMap[id].value)
            && (forall id :: id in c.singletonMap && id != b ==>
                  after.singletonMap[id].refCount == c.singletonMap[id].refCount)
            && b in after.singletonMap
            && after.singletonMap[b].refCount ==
                 (if b in c.singletonMap then c.singletonMap[b].refCount else 0) +
                 (if Edge(c.dependencySetMap, a, b) then 0 else 1)
  {
    TouchIndexed(c, x, y);
    TouchKeeps(c.Touch(x), x, y);
    var named := c.Touch(x).Touch(y);
    var a, b := named.stringMap[x], named.stringMap[y];
    LinkWithin(named, a, b);
  }

  /** Operation i says that entry a depends on entry b, by where its names lead. */
  predicate DependsAt(ops: seq<Op>, i: int, names: map<string, int>, a: int, b: int) {
    && 0 <= i < |ops| && ops[i].DependOn? && ops[i].dependent in names && ops[i].name in names
    && names[ops[i].dependent] == a && names[ops[i].name] == b
  }

  /** A name leads to the same entry for ever. */
  lemma NamesStay(c: Container, op: Op)
    requires c.Indexed()
    ensures forall n :: n in c.stringMap ==>
              n in Apply(c, op).stringMap && Apply(c, op).stringMap[n] == c.stringMap[n]
  {
  }

  lemma EdgesNext(c: Container, op: Op, u: int, v: int)
    requires c.Indexed()
    ensures Edge(Apply(c, op).dependencySetMap, u, v) <==>
              Edge(c.dependencySetMap, u, v) || DependsAt([op], 0, Apply(c, op).stringMap, u, v)
  {
    if op.DependOn? {
      DependOnLinks(c, op.dependent, op.name);
    }
  }

  /** After every run, an entry depends on another exactly if some `DependOn` of the run named the two, in
      this order. */
  lemma {:induction false} RunEdges(ops: seq<Op>, u: int, v: int)
    ensures Edge(Run(ops).dependencySetMap, u, v) <==> exists i :: DependsAt(ops, i, Run(ops).stringMap, u, v)
  {
    if ops != [] {
      var front, n := ops[..|ops| - 1], |ops| - 1;
      hide Apply, Edge, Container.Indexed;
      RunEdges(front, u, v);
      EdgesNext(Run(front), ops[n], u, v);
      NamesStay(Run(front), ops[n]);
      RunNames(front);
      DependsEarlier(ops, Run(front).stringMap, Run(ops).stringMap, u, v);
      var names := Run(ops).stringMap;
      assert DependsAt(ops, n, names, u, v) <==> DependsAt([ops[n]], 0, names, u, v);
      if i :| DependsAt(front, i, Run(front).stringMap, u, v) {
        assert DependsAt(ops, i, names, u, v);
      }
      if i :| DependsAt(ops, i, names, u, v) {
        assert i == n || DependsAt(front, i, Run(front).stringMap, u, v);
      }
    }
  }

  /** Names mentioned before lead where they led, so what they depended on stays the same. */
  lemma DependsEarlier(ops: seq<Op>, before: map<string, int>, after: map<string, int>, u: int, v: int)
    requires ops != []
    requires forall n :: n in before <==> Mentioned(ops[..|ops| - 1], n)
    requires forall n :: n in before ==> n in after && after[n] == before[n]
    ensures forall i :: i < |ops| - 1 ==>
              (DependsAt(ops, i, after, u, v) <==> DependsAt(ops[..|ops| - 1], i, before, u, v))
  {
    var front := ops[..|ops| - 1];
    forall i | 0 <= i < |front| && ops[i].DependOn?
      ensures DependsAt(ops, i, after, u, v) <==> DependsAt(front, i, before, u, v)
    {
      assert Mentions(front[i], ops[i].dependent) && Mentions(front[i], ops[i].name);
      assert Mentioned(front, ops[i].dependent) && Mentioned(front, ops[i].name);
    }
  }

  /** How many operations added something. */
  ghost function Added(ops: seq<Op>): nat {
    if ops == [] then 0
    else Added(ops[..|ops| - 1]) + if AddsAt(ops, |ops| - 1) then 1 else 0
  }

  lemma {:induction false} IdsCounted(ops: seq<Op>)
    ensures Run(ops).nextId == Added(ops)
  {
    if ops != [] {
      var front, last := ops[..|ops| - 1], ops[|ops| - 1];
      hide Apply, Container.Indexed, Mentioned;
      IdsCounted(front);
      RunNames(front);
      NamesNext(Run(front), last);
    }
  }

  /** Where a name leads is settled when it is first mentioned: an adding operation gives it the number of
      additions so far, a `DependOn` gives it 0. */
  lemma {:induction false} RunIds(ops: seq<Op>, i: nat, name: string)
    requires i < |ops| && Mentions(ops[i], name) && !Mentioned(ops[..i], name)
    ensures name in Run(ops).stringMap
    ensures Run(ops).stringMap[name] == if ops[i].DependOn? then 0 else Added(ops[..i])
    decreases |ops|
  {
    var front, last := ops[..|ops| - 1], ops[|ops| - 1];
    RunNames(front);
    if i < |front| {
      assert front[..i] == ops[..i];
      RunIds(front, i, name);
      NamesStay(Run(front), last);
    } else {
      IdsCounted(front);
      FirstMention(Run(front), last, name);
    }
  }

  lemma FirstMention(c: Container, op: Op, name: string)
    requires c.Indexed() && Mentions(op, name) && name !in c.stringMap
    ensures name in Apply(c, op).stringMap && Apply(c, op).stringMap[name] == if op.DependOn? then 0 else c.nextId
  {
    if op.DependOn? {
      DependOnLinks(c, op.dependent, op.name);
    }
  }

  // ----- Teardown -------------------------------------------------------------------------------

  /** The state after erasing `ids` in order. */
  function Erased(c: Container, ids: seq<int>): Container {
    if ids == [] then c else Erased(c, ids[..|ids| - 1]).Erase(ids[|ids| - 1])
  }

  /** Every entry of `ids` is there with a count of zero when its turn comes. */
  predicate Legal(c: Container, ids: seq<int>) {
    ids != [] ==>
      var front := ids[..|ids| - 1];
      Legal(c, front) && Erased(c, front).CanErase(ids[|ids| - 1])
  }

  /** Erasing keeps the counts right, and the decrements only meet entries that are still there. */
  lemma EraseCounts(c: Container, id: int)
    requires c.Counted() && c.CanErase(id)
    ensures c.Erase(id).Counted()
    ensures c.Erase(id).singletonMap.Keys == c.singletonMap.Keys - {id}
    ensures forall a :: !Edge(c.dependencySetMap, a, id)
  {
    var g, after := c.dependencySetMap, c.Erase(id);
    assert c.CountOk(id);
    assert Dependents(g, id) == {};
    forall a
      ensures !Edge(g, a, id)
    {
      assert a !in Dependents(g, id);
    }
    forall b | b in after.singletonMap
      ensures b in c.singletonMap && after.CountOk(b)
    {
      if id in g && b in g[id] {
        assert Edge(g, id, b);
      }
      DropEdgesDependents(g, id, b);
      assert c.CountOk(b);
    }
  }

  lemma LegalSnoc(c: Container, ids: seq<int>, id: int)
    requires Legal(c, ids) && Erased(c, ids).CanErase(id)
    ensures Legal(c, ids + [id]) && Erased(c, ids + [id]) == Erased(c, ids).Erase(id)
  {
    assert (ids + [id])[..|ids|] == ids;
  }

  lemma {:induction false} LegalConcat(c: Container, xs: seq<int>, ys: seq<int>)
    requires Legal(c, xs) && Legal(Erased(c, xs), ys)
    ensures Legal(c, xs + ys) && Erased(c, xs + ys) == Erased(Erased(c, xs), ys)
  {
    if ys == [] {
      assert xs + ys == xs;
    } else {
      var front := ys[..|ys| - 1];
      LegalConcat(c, xs, front);
      assert (xs + ys)[..|xs + ys| - 1] == xs + front;
    }
  }

  /** What a legal sequence of erasures leaves behind: right counts, the entries not named, and
      the dependencies of the entries not named. */
  lemma {:induction false} ErasedState(c: Container, ids: seq<int>)
    requires c.Counted() && Legal(c, ids)
    ensures Erased(c, ids).Counted()
    ensures forall id :: id in Erased(c, ids).singletonMap <==> id in c.singletonMap && id !in ids
    ensures forall a, b :: Edge(Erased(c, ids).dependencySetMap, a, b) <==>
                             Edge(c.dependencySetMap, a, b) && a !in ids
  {
    if ids != [] {
      var front, last := ids[..|ids| - 1], ids[|ids| - 1];
      ErasedState(c, front);
      EraseCounts(Erased(c, front), last);
      assert forall id :: id in ids <==> id in front || id == last;
    }
  }

  lemma {:induction false} LegalPrefix(c: Container, ids: seq<int>, i: nat)
    requires Legal(c, ids) && i < |ids|
    ensures Legal(c, ids[..i]) && Erased(c, ids[..i]).CanErase(ids[i])
  {
    var front := ids[..|ids| - 1];
    if i < |front| {
      LegalPrefix(c, front, i);
      assert front[..i] == ids[..i];
    }
  }

  /** All that depends on `id` is among `gone`. */
  ghost predicate DependentsGone(g: Graph, id: int, gone: seq<int>) {
    forall a :: Edge(g, a, id) ==> a in gone
  }

  /** Whatever order entries are erased in: each goes at most once, and only after everything that
      depends on it. */
  lemma CountedOrder(c: Container, ids: seq<int>, i: nat)
    requires c.Counted() && Legal(c, ids) && i < |ids|
    ensures ids[i] in c.singletonMap && ids[i] !in ids[..i]
    ensures DependentsGone(c.dependencySetMap, ids[i], ids[..i])
  {
    LegalPrefix(c, ids, i);
    ErasedState(c, ids[..i]);
    var before := Erased(c, ids[..i]);
    EraseCounts(before, ids[i]);
    forall a | Edge(c.dependencySetMap, a, ids[i])
      ensures a in ids[..i]
    {
      assert !Edge(before.dependencySetMap, a, ids[i]);
    }
  }

  /** Nothing on, or reachable from, a dependency cycle is ever erased. */
  lemma {:induction false} CountedStuck(c: Container, ids: seq<int>, i: nat)
    requires c.Counted() && Legal(c, ids) && i < |ids|
    ensures !Stuck(c.dependencySetMap, ids[i])
    decreases i
  {
    if Stuck(c.dependencySetMap, ids[i]) {
      CountedOrder(c, ids, i);
      var y := StuckHasStuckPredecessor(c.dependencySetMap, ids[i]);
      assert y in ids[..i];
      var j :| 0 <= j < i && ids[j] == y;
      CountedStuck(c, ids, j);
    }
  }

  /** When no entry can be erased any more, what is left is exactly what lies on, or is reachable
      from, a dependency cycle. */
  lemma CountedStandstill(c: Container, ids: seq<int>)
    requires c.Counted() && Legal(c, ids)
    requires forall id :: !Erased(c, ids).CanErase(id)
    ensures forall id :: id in Erased(c, ids).singletonMap <==> Stuck(c.dependencySetMap, id)
  {
    ErasedState(c, ids);
    var end := Erased(c, ids);
    var g, left := end.dependencySetMap, end.singletonMap.Keys;
    forall x | x in left
      ensures HasPredecessorIn(g, left, x)
    {
      assert !end.CanErase(x) && end.CountOk(x);
      var y :| y in Dependents(g, x);
    }
    assert BackwardClosed(g, left);
    forall id | id in left
      ensures Stuck(c.dependencySetMap, id)
    {
      BackwardClosedIsStuck(g, left, id);
      StuckMonotone(g, c.dependencySetMap, id);
    }
    forall id | Stuck(c.dependencySetMap, id)
      ensures id in left
    {
      var y := StuckHasStuckPredecessor(c.dependencySetMap, id);
      assert id in c.singletonMap;
      if i :| 0 <= i < |ids| && ids[i] == id {
        CountedStuck(c, ids, i);
      }
    }
  }

  /** Erasing for as long as possible comes to an end. */
  lemma {:induction false} EraseAll(c: Container, done: seq<int>) returns (ids: seq<int>)
    requires c.Counted() && Legal(c, done)
    ensures Legal(c, ids)
    ensures forall id :: !Erased(c, ids).CanErase(id)
    decreases |Erased(c, done).singletonMap|
  {
    var now := Erased(c, done);
    if id :| now.CanErase(id) {
      var longer := done + [id];
      LegalSnoc(c, done, id);
      ErasedState(c, done);
      EraseCounts(now, id);
      assert |now.singletonMap.Keys - {id}| == |now.singletonMap| - 1;
      ids := EraseAll(c, longer);
    } else {
      ids := done;
    }
  }

  ghost predicate Empties(c: Container, ids: seq<int>) {
    Legal(c, ids) && |Erased(c, ids).singletonMap| == 0
  }

  lemma CountedCompletes(c: Container) returns (ids: seq<int>)
    requires c.Counted() && Acyclic(c.dependencySetMap)
    ensures Empties(c, ids)
  {
    NoStuckIffAcyclic(c.dependencySetMap);
    ids := EraseAll(c, []);
    CountedStandstill(c, ids);
    var left := Erased(c, ids).singletonMap.Keys;
    assert forall id :: id !in left;
    assert left == {};
  }

  lemma CountedCompleting(c: Container, ids: seq<int>)
    requires c.Counted() && Empties(c, ids)
    ensures Acyclic(c.dependencySetMap)
  {
    NoStuckIffAcyclic(c.dependencySetMap);
    var end := Erased(c, ids);
    assert end.singletonMap.Keys == {};
    CountedStandstill(c, ids);
  }

  lemma CountedErasable(c: Container, ids: seq<int>)
    requires c.Counted() && Legal(c, ids) && Acyclic(c.dependencySetMap)
    requires |Erased(c, ids).singletonMap| != 0
    ensures exists id :: Erased(c, ids).CanErase(id)
  {
    if forall id :: !Erased(c, ids).CanErase(id) {
      CountedStandstill(c, ids);
      NoStuckIffAcyclic(c.dependencySetMap);
      var id := Member(Erased(c, ids).singletonMap.Keys);
      assert false;
    }
  }

  lemma CountedShrinks(c: Container, ids: seq<int>)
    requires c.Counted() && Legal(c, ids) && ids != []
    ensures Erased(c, ids).singletonMap.Keys < c.singletonMap.Keys
  {
    LegalPrefix(c, ids, 0);
    ErasedState(c, ids);
    assert ids[0] in ids && ids[0] in c.singletonMap;
  }

  lemma CountedAllErased(c: Container, ids: seq<int>)
    requires c.Counted() && Legal(c, ids) && |Erased(c, ids).singletonMap| == 0
    ensures forall id :: id in ids <==> id in c.singletonMap
  {
    ErasedState(c, ids);
    forall i | 0 <= i < |ids|
      ensures ids[i] in c.singletonMap
    {
      CountedOrder(c, ids, i);
    }
    assert Erased(c, ids).singletonMap.Keys == {};
  }

  // ----- Teardown after any run -------------------------------------------------------------------

  /** In a skewed container the counts never speak of the edge from entry 0 to itself: erasing does the
      same with and without it. */
  lemma EraseBound(c: Container, id: int)
    requires c.Accounted() && c.CanErase(id)
    ensures c.Bound().Counted() && c.Erase(id).Accounted() && c.Erase(id).Bound() == c.Bound().Erase(id)
    ensures c.Erase(id).singletonMap == c.Bound().Erase(id).singletonMap
  {
    if c.Counted() {
      EraseCounts(c, id);
    } else {
      EraseCounts(c.Reduced(), id);
      if id == 0 {
        EraseZero(c);
      } else {
        EraseOther(c, id);
        SkewExact(c.Erase(id));
      }
    }
  }

  lemma EraseZero(c: Container)
    requires Edge(c.dependencySetMap, 0, 0) && 0 in c.singletonMap
    ensures c.Erase(0) == c.Reduced().Erase(0)
  {
    assert DropEdges(c.dependencySetMap, 0) == DropEdges(DropSelfEdge(c.dependencySetMap, 0), 0);
    var deps := DependenciesOf(c.dependencySetMap, 0);
    assert AdjustAll(c.singletonMap, deps, -1) - {0} == AdjustAll(c.singletonMap, deps - {0}, -1) - {0};
  }

  lemma EraseOther(c: Container, id: int)
    requires Edge(c.dependencySetMap, 0, 0) && 0 in c.singletonMap && id != 0
    ensures c.Erase(id).Reduced() == c.Reduced().Erase(id)
    ensures Edge(c.Erase(id).dependencySetMap, 0, 0) && 0 in c.Erase(id).singletonMap
  {
    assert DropEdges(DropSelfEdge(c.dependencySetMap, 0), id) == DropSelfEdge(DropEdges(c.dependencySetMap, id), 0);
    assert DependenciesOf(DropSelfEdge(c.dependencySetMap, 0), id) == DependenciesOf(c.dependencySetMap, id);
  }

  /** So a container can be torn down in exactly the orders in which its bound one can. */
  lemma {:induction false} LegalBound(c: Container, ids: seq<int>)
    requires c.Accounted()
    ensures c.Bound().Counted()
    ensures Legal(c, ids) <==> Legal(c.Bound(), ids)
    ensures Legal(c, ids) ==> Erased(c, ids).Accounted() && Erased(c, ids).Bound() == Erased(c.Bound(), ids)
    ensures Legal(c, ids) ==> Erased(c, ids).singletonMap == Erased(c.Bound(), ids).singletonMap
  {
    if ids != [] {
      var front, last := ids[..|ids| - 1], ids[|ids| - 1];
      LegalBound(c, front);
      if Legal(c, front) && Erased(c, front).CanErase(last) {
        EraseBound(Erased(c, front), last);
      }
    }
  }

  /** Whatever order entries are erased in: each goes at most once, and only after everything that
      depends on it. */
  lemma TeardownOrder(c: Container, ids: seq<int>, i: nat)
    requires c.Accounted() && Legal(c, ids) && i < |ids|
    ensures ids[i] in c.singletonMap && ids[i] !in ids[..i]
    ensures DependentsGone(c.Binding(), ids[i], ids[..i])
  {
    LegalBound(c, ids);
    CountedOrder(c.Bound(), ids, i);
  }

  /** Nothing on, or reachable from, a cycle of binding dependencies is ever erased. */
  lemma StuckNeverErased(c: Container, ids: seq<int>, i: nat)
    requires c.Accounted() && Legal(c, ids) && i < |ids|
    ensures !Stuck(c.Binding(), ids[i])
  {
    LegalBound(c, ids);
    CountedStuck(c.Bound(), ids, i);
  }

  /** When no entry can be erased any more, what is left is exactly what lies on, or is reachable
      from, a cycle of binding dependencies. */
  lemma StandstillIsStuck(c: Container, ids: seq<int>)
    requires c.Accounted() && Legal(c, ids)
    requires forall id :: !Erased(c, ids).CanErase(id)
    ensures forall id :: id in Erased(c, ids).singletonMap <==> Stuck(c.Binding(), id)
  {
    LegalBound(c, ids);
    assert forall id :: Erased(c.Bound(), ids).CanErase(id) ==> Erased(c, ids).CanErase(id);
    CountedStandstill(c.Bound(), ids);
  }

  /** The teardown can empty the container exactly when its binding dependencies have no cycle. */
  lemma TeardownCompletesIffAcyclic(c: Container)
    requires c.Accounted()
    ensures (exists ids :: Empties(c, ids)) <==> Acyclic(c.Binding())
  {
    if Acyclic(c.Binding()) {
      LegalBound(c, []);
      var ids := CountedCompletes(c.Bound());
      LegalBound(c, ids);
      assert Empties(c, ids);
    }
    forall ids | Empties(c, ids)
      ensures Acyclic(c.Binding())
    {
      LegalBound(c, ids);
      CountedCompleting(c.Bound(), ids);
    }
  }

  lemma SomethingErasable(c: Container, ids: seq<int>)
    requires c.Accounted() && Legal(c, ids) && Acyclic(c.Binding())
    requires |Erased(c, ids).singletonMap| != 0
    ensures Erased(c, ids).Accounted() && exists id :: Erased(c, ids).CanErase(id)
  {
    LegalBound(c, ids);
    CountedErasable(c.Bound(), ids);
    var id :| Erased(c.Bound(), ids).CanErase(id);
    assert Erased(c, ids).CanErase(id);
  }

  lemma ErasureShrinks(c: Container, ids: seq<int>)
    requires c.Accounted() && Legal(c, ids) && ids != []
    ensures Erased(c, ids).singletonMap.Keys < c.singletonMap.Keys
  {
    LegalBound(c, ids);
    CountedShrinks(c.Bound(), ids);
  }

  lemma AllErased(c: Container, ids: seq<int>)
    requires c.Accounted() && Legal(c, ids) && |Erased(c, ids).singletonMap| == 0
    ensures forall id :: id in ids <==> id in c.singletonMap
  {
    LegalBound(c, ids);
    CountedAllErased(c.Bound(), ids);
  }

  /** The dependencies that bind after a run: all of them, but for the edge from entry 0 to itself in
      the runs that open with a `DependOn` and later add something. */
  ghost function BindingAfter(ops: seq<Op>): Graph {
    if Spoils(ops) then DropSelfEdge(Run(ops).dependencySetMap, 0) else Run(ops).dependencySetMap
  }

  lemma RunsAccounted(ops: seq<Op>)
    ensures Run(ops).Accounted() && Run(ops).Binding() == BindingAfter(ops)
  {
    CountsAlongRuns(ops);
  }

  /** After every run: the teardown can end if and only if the binding dependencies have no cycle, and
      each entry goes only after everything bound to it. */
  lemma TeardownAfterAnyRun(ops: seq<Op>)
    ensures (exists ids :: Empties(Run(ops), ids)) <==> Acyclic(BindingAfter(ops))
    ensures forall ids, i :: Legal(Run(ops), ids) && 0 <= i < |ids| ==>
              DependentsGone(BindingAfter(ops), ids[i], ids[..i]) && !Stuck(BindingAfter(ops), ids[i])
  {
    RunsAccounted(ops);
    TeardownCompletesIffAcyclic(Run(ops));
    forall ids, i | Legal(Run(ops), ids) && 0 <= i < |ids|
      ensures DependentsGone(BindingAfter(ops), ids[i], ids[..i]) && !Stuck(BindingAfter(ops), ids[i])
    {
      TeardownOrder(Run(ops), ids, i);
      StuckNeverErased(Run(ops), ids, i);
    }
  }

  /** In names: for every `DependOn(x, y)` of a run, y's entry is erased only after x's - unless both
      names lead to entry 0 of a run that opens with a `DependOn` and later adds something. */
  lemma DependentsGoFirst(ops: seq<Op>, i: nat, ids: seq<int>, k: nat)
    requires i < |ops| && ops[i].DependOn?
    requires Legal(Run(ops), ids) && k < |ids|
    ensures var names := Run(ops).stringMap;
            && ops[i].dependent in names && ops[i].name in names
            && (ids[k] == names[ops[i].name] && !(Spoils(ops) && ids[k] == 0 == names[ops[i].dependent]) ==>
                  names[ops[i].dependent] in ids[..k])
  {
    var names := Run(ops).stringMap;
    RunNames(ops);
    assert Mentions(ops[i], ops[i].dependent) && Mentions(ops[i], ops[i].name);
    assert Mentioned(ops, ops[i].dependent) && Mentioned(ops, ops[i].name);
    var a, b := names[ops[i].dependent], names[ops[i].name];
    RunEdges(ops, a, b);
    assert DependsAt(ops, i, names, a, b);
    hide Legal, Run, Spoils;
    RunsAccounted(ops);
    TeardownOrder(Run(ops), ids, k);
    assert ids[k] == b && !(Spoils(ops) && b == 0 == a) ==> Edge(BindingAfter(ops), a, b);
  }

  /** A run that goes wrong: entry 0 is on a cycle, its count is off, and it is erased all the same. */
  lemma CycleErased()
    ensures var c := Run([Op.DependOn("a", "b"), Op.AddSingleton("c", 1)]);
            !c.Counted() && OnCycle(c.dependencySetMap, 0) && Empties(c, [0])
  {
    hide EdgesWithin, Container.Counted, Container.Indexed, OnCycle, Empties, Edge, AddEdge;
    var ops := [Op.DependOn("a", "b"), Op.AddSingleton("c", 1)];
    var first, c := Run(ops[..1]), Run(ops);
    assert ops[..1][..0] == [] && Run(ops[..1][..0]) == EMPTY;
    assert first == EMPTY.DependOn("a", "b") && c == first.Add("c", 1);
    EmptyCounted();
    FirstDependOn(EMPTY, "a", "b");
    AddToOnlyZero(first);
    OnlyZero(c);
  }

  lemma EmptyCounted()
    ensures EMPTY.Indexed() && EMPTY.Counted()
  {
  }

  lemma AddToOnlyZero(c: Container)
    requires c.singletonMap == map[0 := Singleton(NULLPTR, 1)] && c.nextId == 0 && "c" !in c.stringMap
    ensures c.Add("c", 1).singletonMap == map[0 := Singleton(1, 0)]
    ensures c.Add("c", 1).dependencySetMap == c.dependencySetMap
  {
  }

  lemma OnlyZero(c: Container)
    requires c.Indexed() && Edge(c.dependencySetMap, 0, 0)
    requires c.singletonMap == map[0 := Singleton(1, 0)]
    ensures !c.Counted() && OnCycle(c.dependencySetMap, 0) && Empties(c, [0])
  {
    var g := c.dependencySetMap;
    assert 0 in Dependents(g, 0) && !c.CountOk(0);
    assert Walk(g, [0, 0]);
    LegalSnoc(c, [], 0);
    assert [] + [0] == [0];
    assert forall id :: id in DependenciesOf(g, 0) ==> Edge(g, 0, id);
    assert c.Erase(0).singletonMap.Keys == {};
  }

  lemma AdjustOneMore(m: map<int, Singleton>, done: set<int>, id: int, delta: int)
    requires id !in done
    ensures Adjust(AdjustAll(m, done, delta), id, delta) == AdjustAll(m, done + {id}, delta)
  {
  }

  // ----- The container itself ---------------------------------------------------------------------

  lemma Member(s: set<int>) returns (x: int)
    requires s != {}
    ensures x in s
  {
    if forall y :: y !in s {
      assert false;
    }
    x :| x in s;
  }

  predicate Above(id: int, low: Option<int>) {
    low.Some? ==> low.value < id
  }

  /** The smallest id above `low`, or the smallest of all when there is no `low`. */
  method NextId(ids: set<int>, low: Option<int>) returns (next: Option<int>)
    ensures next.None? ==> forall id :: id in ids ==> !Above(id, low)
    ensures next.Some? ==> next.value in ids && Above(next.value, low)
    ensures next.Some? ==> forall id :: id in ids && Above(id, low) ==> next.value <= id
  {
    next := None;
    var todo := ids;
    while todo != {}
      invariant todo <= ids
      invariant next.None? ==> forall id :: id in ids && id !in todo ==> !Above(id, low)
      invariant next.Some? ==> next.value in ids && Above(next.value, low)
      invariant next.Some? ==>
                  forall id :: id in ids && id !in todo && Above(id, low) ==> next.value <= id
    {
      ghost var member := Member(todo);
      var id :| id in todo;
      todo := todo - {id};
      if Above(id, low) && (next.Some? ==> id < next.value) {
        next := Some(id);
      }
    }
  }

  /** The entries an iterator at `it` has still to visit. */
  ghost function Ahead(ids: set<int>, it: Option<int>): set<int> {
    set id | id in ids && it.Some? && it.value <= id
  }

  class SingletonContainer {
    var stringMap: map<string, int>
    var singletonMap: map<int, Singleton>
    var dependencySetMap: Graph
    var nextId: nat
    var destroyed: bool

    ghost function State(): Container
      reads this
    {
      Container(stringMap, singletonMap, dependencySetMap, nextId)
    }

    constructor ()
      ensures State() == EMPTY && !destroyed
    {
      stringMap, singletonMap, dependencySetMap, nextId := map[], map[], map[], 0;
      destroyed := false;
    }

    method AddSingleton(name: string, instance: Instance)
      modifies this
      ensures State() == old(State()).Add(name, instance) && destroyed == old(destroyed)
    {
      if name !in stringMap {
        singletonMap := singletonMap[nextId := Singleton(instance, 0)];
        stringMap := stringMap[name := nextId];
        nextId := nextId + 1;
      }
    }

    method SetSingleton(name: string, instance: Instance)
      requires State().Indexed()
      modifies this
      ensures State() == old(State()).Set(name, instance) && destroyed == old(destroyed)
    {
      if name !in stringMap {
        AddSingleton(name, instance);
      } else {
        var id := stringMap[name];
        singletonMap := singletonMap[id := singletonMap[id].(value := instance)];
      }
    }

    method GetSingleton(name: string) returns (instance: Instance)
      requires State().Indexed()
      ensures instance == State().Get(name)
      ensures instance == if name in stringMap then singletonMap[stringMap[name]].value else 0
    {
      if name !in stringMap {
        return NULLPTR;
      }
      return singletonMap[stringMap[name]].value;
    }

    /** `stringMap[name]`, inserting id 0 for a missing name. */
    method IdOf(name: string) returns (id: int)
      modifies this`stringMap
      ensures State() == old(State()).Touch(name) && name in stringMap && id == stringMap[name]
    {
      if name !in stringMap {
        stringMap := stringMap[name := 0];
      }
      id := stringMap[name];
    }

    /** `a` depends on `b` from now on. */
    method Link(a: int, b: int)
      modifies this`dependencySetMap, this`singletonMap
      ensures State() == old(State()).Link(a, b)
    {
      if !Edge(dependencySetMap, a, b) {
        dependencySetMap := AddEdge(dependencySetMap, a, b);
        singletonMap := Adjust(singletonMap, b, 1);
      }
    }

    method DependOn(instance: string, name: string) returns (target: Instance)
      requires State().Indexed()
      modifies this`stringMap, this`dependencySetMap, this`singletonMap
      ensures State() == old(State()).DependOn(instance, name) && State().Indexed()
      ensures target == State().Get(name)
    {
      hide Container.Touch, Container.Link, Container.Indexed, Container.Get, Edge, AddEdge, Adjust;
      IndexedDependOn(State(), instance, name);
      var a := IdOf(instance);
      var b := IdOf(name);
      ghost var named := State();
      TouchKeeps(old(State()).Touch(instance), instance, name);
      Link(a, b);
      assert State() == named.Link(a, b);
      target := GetSingleton(name);
    }

    /** Count down everything `id` depends on. */
    method ReleaseDependencies(id: int)
      modifies this`singletonMap, this`dependencySetMap
      ensures singletonMap == old(AdjustAll(singletonMap, DependenciesOf(dependencySetMap, id), -1))
      ensures dependencySetMap == DropEdges(old(dependencySetMap), id)
    {
      if id in dependencySetMap {
        ghost var before := singletonMap;
        var deps := dependencySetMap[id];
        var todo, done := deps, {};
        while todo != {}
          invariant todo + done == deps && todo !! done
          invariant singletonMap == AdjustAll(before, done, -1)
          invariant dependencySetMap == old(dependencySetMap)
        {
          ghost var member := Member(todo);
          var mid :| mid in todo;
          AdjustOneMore(before, done, mid, -1);
          singletonMap := Adjust(singletonMap, mid, -1);
          todo, done := todo - {mid}, done + {mid};
        }
      }
      dependencySetMap := DropEdges(dependencySetMap, id);
    }

    /** Advance the iterator past its entry, erasing the entry if its count has reached zero. */
    method Visit(it: Option<int>) returns (next: Option<int>, ghost gone: seq<int>)
      requires State().Accounted() && it.Some? && it.value in singletonMap
      modifies this`singletonMap, this`dependencySetMap
      ensures gone == if old(State()).CanErase(it.value) then [it.value] else []
      ensures Legal(old(State()), gone) && State() == Erased(old(State()), gone) && State().Accounted()
      ensures next.Some? ==> next.value in singletonMap
      ensures Ahead(singletonMap.Keys, next) < Ahead(old(singletonMap.Keys), it)
      ensures forall id :: id in old(singletonMap) && it.value < id ==> next.Some? && next.value <= id
    {
      ghost var start, ahead := State(), Ahead(singletonMap.Keys, it);
      gone := [];
      next := NextId(singletonMap.Keys, it);
      assert it.value in ahead && Ahead(singletonMap.Keys, next) <= ahead - {it.value};
      if singletonMap[it.value].refCount <= 0 {
        EraseBound(start, it.value);
        EraseCounts(start.Bound(), it.value);
        ReleaseDependencies(it.value);
        singletonMap := singletonMap - {it.value};
        gone := [it.value];
        LegalSnoc(start, [], it.value);
        assert [] + [it.value] == gone;
      }
    }

    /** One pass over the entries in id order. */
    method ErasePass() returns (ghost erased: seq<int>)
      requires State().Accounted()
      modifies this`singletonMap, this`dependencySetMap
      ensures Legal(old(State()), erased) && State() == Erased(old(State()), erased)
      ensures (exists id :: old(State()).CanErase(id)) ==> erased != []
    {
      ghost var start := State();
      erased := [];
      var it := NextId(singletonMap.Keys, None);
      while it.Some?
        invariant it.Some? ==> it.value in singletonMap
        invariant Legal(start, erased) && State() == Erased(start, erased) && State().Accounted()
        invariant erased == [] ==> forall id :: start.CanErase(id) ==> it.Some? && it.value <= id
        decreases Ahead(singletonMap.Keys, it)
      {
        ghost var gone;
        it, gone := Visit(it);
        LegalConcat(start, erased, gone);
        erased := erased + gone;
      }
    }

    /** The destructor: passes until nothing is left. */
    method Destroy() returns (ghost erased: seq<int>)
      requires State().Accounted() && Acyclic(State().Binding())
      modifies this
      ensures destroyed && singletonMap == map[]
      ensures Legal(old(State()), erased) && State() == Erased(old(State()), erased)
      ensures forall id :: id in erased <==> id in old(singletonMap)
    {
      ghost var start := State();
      destroyed := true;
      erased := [];
      while |singletonMap| != 0
        invariant destroyed
        invariant Legal(start, erased) && State() == Erased(start, erased)
        decreases singletonMap.Keys
      {
        SomethingErasable(start, erased);
        ghost var before := State();
        var more := ErasePass();
        ErasureShrinks(before, more);
        LegalConcat(start, erased, more);
        erased := erased + more;
      }
      AllErased(start, erased);
    }
  }
}
