/** The keys under which web resources register events and call methods, and the registry that
    dispatches events by them. */
module WebKeys {
  import opened Wrappers
  import opened Decimal

  const INVALID_ID := -1
  const WEB_PARAM_EQUALS := "#HWJS-=-#"
  const WEB_PARAM_BEGIN := "#HWJS-?-#"

  datatype Kind = Event | Method

  function KindText(kind: Kind): string {
    if kind.Event? then "event" else "method"
  }

  function ResourceHash(kind: string, id: int): string {
    kind + "@" + IntText(id)
  }

  /** The key of an event or a method of the resource with this hash. */
  function MakeKey(hash: string, kind: Kind, name: string): string {
    hash + KindText(kind) + WEB_PARAM_EQUALS + name + WEB_PARAM_BEGIN
  }

  function Key(resource: string, id: int, kind: Kind, name: string): string {
    MakeKey(ResourceHash(resource, id), kind, name)
  }

  // ----- Reading a key ------------------------------------------------------------------------------

  /** What stands between the type and the name. */
  function Middle(id: int, kind: Kind): string {
    IntText(id) + KindText(kind) + WEB_PARAM_EQUALS
  }

  lemma KeyParts(resource: string, id: int, kind: Kind, name: string)
    ensures Key(resource, id, kind, name) == resource + "@" + (Middle(id, kind) + (name + WEB_PARAM_BEGIN))
  {
    KeyRegroup(resource + "@", IntText(id), KindText(kind), WEB_PARAM_EQUALS, name, WEB_PARAM_BEGIN);
  }

  lemma KeyRegroup(a: string, b: string, c: string, d: string, e: string, f: string)
    ensures a + b + c + d + e + f == a + (b + c + d + (e + f))
  {
  }

  lemma NatTextPlain(n: nat, c: char)
    requires !IsDigit(c)
    ensures c !in NatText(n)
  {
  }

  /** A number is followed by a letter, and there is no '@' behind the type. */
  lemma MiddleShape(id: int, kind: Kind)
    ensures 'e' !in IntText(id) && 'm' !in IntText(id) && '@' !in Middle(id, kind)
    ensures KindText(kind)[0] == if kind.Event? then 'e' else 'm'
  {
    var n := if id < 0 then -id else id;
    NatTextPlain(n, 'e');
    NatTextPlain(n, 'm');
    NatTextPlain(n, '@');
  }

  lemma SplitAgain(a: string, s: string, b: string, t: string)
    requires a + s == b + t && |a| == |b|
    ensures a == b && s == t
  {
    assert (a + s)[..|a|] == a && (b + t)[..|b|] == b;
    assert (a + s)[|a|..] == s && (b + t)[|b|..] == t;
  }

  lemma FirstInside(a: string, s: string, b: string, t: string)
    requires a + s == b + t && s != "" && |a| < |b|
    ensures s[0] in b
  {
    assert (a + s)[|a|] == s[0] && (b + t)[|a|] == b[|a|];
  }

  /** Two texts that go on with a letter at the first place where they could. */
  lemma CutsAgree(a: string, s: string, b: string, t: string, marks: set<char>)
    requires a + s == b + t && s != "" && s[0] in marks && t != "" && t[0] in marks
    requires forall c :: c in marks ==> c !in a && c !in b
    ensures a == b && s == t
  {
    if |a| < |b| {
      FirstInside(a, s, b, t);
    }
    if |b| < |a| {
      FirstInside(b, t, a, s);
    }
    SplitAgain(a, s, b, t);
  }

  /** A number, a word of two kinds, a name, each followed by the next. */
  lemma PartsAgree(a: string, k: string, name: string, a': string, k': string, name': string,
                   equals: string, end: string, marks: set<char>)
    requires a + k + equals + (name + end) == a' + k' + equals + (name' + end)
    requires forall c :: c in marks ==> c !in a && c !in a'
    requires k != "" && k[0] in marks && k' != "" && k'[0] in marks && (k[0] == k'[0] ==> k == k')
    ensures a == a' && k == k' && name == name'
  {
    var s, s' := k + equals + (name + end), k' + equals + (name' + end);
    assert a + s == a + k + equals + (name + end) && a' + s' == a' + k' + equals + (name' + end);
    CutsAgree(a, s, a', s', marks);
    assert s[0] == k[0] && s'[0] == k'[0];
    SplitAgain(k + equals, name + end, k' + equals, name' + end);
    SplitAgain(name, end, name', end);
  }

  /** Behind the type, a key gives number, kind and name back. */
  lemma TailInjective(id: int, kind: Kind, name: string, id': int, kind': Kind, name': string)
    requires Middle(id, kind) + (name + WEB_PARAM_BEGIN) == Middle(id', kind') + (name' + WEB_PARAM_BEGIN)
    ensures id == id' && kind == kind' && name == name'
  {
    MiddleShape(id, kind);
    MiddleShape(id', kind');
    hide IntText;
    PartsAgree(IntText(id), KindText(kind), name, IntText(id'), KindText(kind'), name',
               WEB_PARAM_EQUALS, WEB_PARAM_BEGIN, {'e', 'm'});
    IntTextInjective(id, id');
  }

  /** Keys of one resource type are the same only for the same number, kind and name. */
  lemma KeysInjective(resource: string, id: int, kind: Kind, name: string, id': int, kind': Kind, name': string)
    ensures Key(resource, id, kind, name) == Key(resource, id', kind', name')
       <==> id == id' && kind == kind' && name == name'
  {
    if Key(resource, id, kind, name) == Key(resource, id', kind', name') {
      KeyParts(resource, id, kind, name);
      KeyParts(resource, id', kind', name');
      SplitAgain(resource + "@", Middle(id, kind) + (name + WEB_PARAM_BEGIN),
                 resource + "@", Middle(id', kind') + (name' + WEB_PARAM_BEGIN));
      TailInjective(id, kind, name, id', kind', name');
    }
  }

  // ----- Keys of different types --------------------------------------------------------------------

  /** The second type starts like a key of the first one. */
  ghost predicate Mimics(resource: string, resource': string) {
    exists id, kind :: Mimics'(resource, id, kind, resource')
  }

  predicate Mimics'(resource: string, id: int, kind: Kind, resource': string) {
    resource + "@" + Middle(id, kind) <= resource'
  }

  ghost predicate ShareKey(resource: string, resource': string) {
    exists id, kind, name, id', kind', name' ::
      Key(resource, id, kind, name) == Key(resource', id', kind', name')
  }

  /** Two types can have a key in common exactly when one of them starts like a key of the other. */
  lemma TypesShareKeys(resource: string, resource': string)
    requires resource != resource'
    ensures ShareKey(resource, resource') <==> Mimics(resource, resource') || Mimics(resource', resource)
  {
    if ShareKey(resource, resource') {
      var id, kind, name, id', kind', name' :|
        Key(resource, id, kind, name) == Key(resource', id', kind', name');
      if |resource| <= |resource'| {
        CommonKeyMimics(resource, id, kind, name, resource', id', kind', name');
      } else {
        CommonKeyMimics(resource', id', kind', name', resource, id, kind, name);
      }
    }
    if Mimics(resource, resource') {
      var id, kind :| Mimics'(resource, id, kind, resource');
      MimicsShare(resource, id, kind, resource');
    }
    if Mimics(resource', resource) {
      var id, kind :| Mimics'(resource', id, kind, resource);
      MimicsShare(resource', id, kind, resource);
    }
  }

  lemma CommonKeyMimics(resource: string, id: int, kind: Kind, name: string,
                        resource': string, id': int, kind': Kind, name': string)
    requires resource != resource' && |resource| <= |resource'|
    requires Key(resource, id, kind, name) == Key(resource', id', kind', name')
    ensures Mimics(resource, resource')
  {
    hide Key, Middle;
    KeyParts(resource, id, kind, name);
    KeyParts(resource', id', kind', name');
    MiddleShape(id, kind);
    ReachesPast(resource, Middle(id, kind), name + WEB_PARAM_BEGIN,
                resource', Middle(id', kind') + (name' + WEB_PARAM_BEGIN));
    assert Mimics'(resource, id, kind, resource');
  }

  /** An '@' that cannot be in the middle must be behind it. */
  lemma ReachesPast(a: string, m: string, s: string, b: string, t: string)
    requires a + "@" + (m + s) == b + "@" + t && '@' !in m && a != b && |a| <= |b|
    ensures a + "@" + m <= b
  {
    var key, head := b + "@" + t, a + "@" + m;
    assert key == head + s && key[|b|] == '@';
    assert key[..|a|] == a && key[..|b|] == b;
    assert |a| != |b|;
    assert forall i :: |a| < i < |head| ==> key[i] == head[i] == m[i - |a| - 1];
    assert |b| >= |head|;
    assert key[..|head|] == head;
  }

  lemma MimicsShare(resource: string, id: int, kind: Kind, resource': string)
    requires Mimics'(resource, id, kind, resource')
    ensures ShareKey(resource, resource') && ShareKey(resource', resource)
  {
    hide Key, Middle;
    var head := resource + "@" + Middle(id, kind);
    var rest := resource'[|head|..];
    var name := rest + "@" + Middle(0, Event);
    assert resource' == head + rest;
    KeyParts(resource, id, kind, name);
    KeyParts(resource', 0, Event, "");
    SameText(resource, Middle(id, kind), rest, Middle(0, Event), WEB_PARAM_BEGIN);
    assert Key(resource, id, kind, name) == Key(resource', 0, Event, "");
  }

  lemma SameText(a: string, m: string, rest: string, m': string, end: string)
    ensures a + "@" + (m + ((rest + "@" + m') + end)) == a + "@" + m + rest + "@" + (m' + ("" + end))
  {
  }

  /** So types without an '@' never share one. */
  lemma PlainTypesNeverShare(resource: string, resource': string)
    requires resource != resource' && '@' !in resource && '@' !in resource'
    ensures !ShareKey(resource, resource')
  {
    TypesShareKeys(resource, resource');
    if Mimics(resource, resource') {
      MimicsHasAt(resource, resource');
    }
    if Mimics(resource', resource) {
      MimicsHasAt(resource', resource);
    }
  }

  lemma MimicsHasAt(resource: string, resource': string)
    requires Mimics(resource, resource')
    ensures '@' in resource'
  {
    var id, kind :| Mimics'(resource, id, kind, resource');
    var head := resource + "@" + Middle(id, kind);
    assert head[|resource|] == '@' && head <= resource';
  }

  // ----- Resources and the registry -----------------------------------------------------------------

  lemma EventPrefix()
    ensures "event" + WEB_PARAM_EQUALS == "event#HWJS-=-#"
  {
  }

  lemma MethodPrefix()
    ensures "method" + WEB_PARAM_EQUALS == "method#HWJS-=-#"
  {
  }

  lemma Joined(a: string, b: string, c: string, d: string, e: string)
    ensures a + b + c + d + e == a + (b + c) + d + e
  {
  }

  class WebResource {
    const kind: string
    var id: int
    var hash: string

    /** A resource has the hash of its number, or, released, none. */
    ghost predicate Valid()
      reads this
    {
      hash == ResourceHash(kind, id) || (id == INVALID_ID && hash == "")
    }

    constructor (kind: string)
      ensures Valid() && this.kind == kind && id == INVALID_ID && hash == ""
    {
      this.kind := kind;
      id, hash := INVALID_ID, "";
    }

    /** The number given by the platform is taken over with its hash. */
    method Claim(newId: int)
      modifies this
      ensures Valid() && id == newId && hash == ResourceHash(kind, newId) && hash == kind + "@" + IntText(newId)
    {
      id := newId;
      hash := ResourceHash(kind, id);
    }

    /** Release the resource once; `released` is the answer of the platform, if it is there to answer,
        and `notified` what the caller is told. */
    method Release(context: bool, register: bool, released: bool) returns (notified: Option<bool>)
      requires Valid()
      modifies this
      ensures Valid()
      ensures var asked := old(id) != INVALID_ID && context && register;
              && notified == (if asked then Some(released) else None)
              && id == (if asked && released then INVALID_ID else old(id))
              && hash == (if asked && released then "" else old(hash))
    {
      if id == INVALID_ID {
        return None;
      }
      if !context {
        return None;
      }
      if !register {
        return None;
      }
      if released {
        id := INVALID_ID;
        hash := "";
      }
      return Some(released);
    }

    /** A live resource makes the keys of its type and number. */
    method MakeEventHash(event: string) returns (key: string)
      requires Valid()
      ensures hash != "" ==> key == Key(kind, id, Event, event)
      ensures hash == "" ==> key == MakeKey("", Event, event)
      ensures key == hash + "event#HWJS-=-#" + event + "#HWJS-?-#"
    {
      key := hash + "event" + WEB_PARAM_EQUALS + event + WEB_PARAM_BEGIN;
      EventPrefix();
      Joined(hash, "event", WEB_PARAM_EQUALS, event, WEB_PARAM_BEGIN);
    }

    method MakeMethodHash(name: string) returns (key: string)
      requires Valid()
      ensures hash != "" ==> key == Key(kind, id, Method, name)
      ensures hash == "" ==> key == MakeKey("", Method, name)
      ensures key == hash + "method#HWJS-=-#" + name + "#HWJS-?-#"
    {
      key := hash + "method" + WEB_PARAM_EQUALS + name + WEB_PARAM_BEGIN;
      MethodPrefix();
      Joined(hash, "method", WEB_PARAM_EQUALS, name, WEB_PARAM_BEGIN);
    }
  }

  /** A callback, which may be an empty function. */
  type Callback = Option<nat>

  /** What happens to a registry, by resource number and event. */
  datatype Action = Register(id: int, event: string, callback: Callback) | Unregister(id: int, event: string)

  class WebObjectEventManager {
    var events: map<string, Callback>

    constructor ()
      ensures events == map[]
    {
      events := map[];
    }

    method RegisterObjectEvent(key: string, callback: Callback)
      modifies this
      ensures events == old(events)[key := callback]
    {
      events := events[key := callback];
    }

    method UnRegisterObjectEvent(key: string)
      modifies this
      ensures events == old(events) - {key}
    {
      events := events - {key};
    }

    /** The callback that is run. */
    method OnObjectEvent(key: string) returns (called: Callback)
      ensures called == Dispatched(events, key)
      ensures called.Some? <==> key in events && events[key].Some?
      ensures called.Some? ==> called == events[key]
    {
      if key in events && events[key].Some? {
        return events[key];
      }
      return None;
    }
  }

  function Dispatched(events: map<string, Callback>, key: string): Callback {
    if key in events then events[key] else None
  }

  /** The registry of resources of one type after a run of actions. */
  function After(resource: string, actions: seq<Action>): map<string, Callback> {
    if actions == [] then map[]
    else
      var before, last := After(resource, actions[..|actions| - 1]), actions[|actions| - 1];
      match last
      case Register(id, event, callback) => before[Key(resource, id, Event, event) := callback]
      case Unregister(id, event) => before - {Key(resource, id, Event, event)}
  }

  /** The callback last registered for this number and event, unless it was taken back. */
  function LastRegistered(actions: seq<Action>, id: int, event: string): Callback {
    if actions == [] then None
    else
      var last := actions[|actions| - 1];
      if last.id == id && last.event == event then
        if last.Register? then last.callback else None
      else LastRegistered(actions[..|actions| - 1], id, event)
  }

  /** After every run, an event reaches the callback last registered for its resource and name, and
      no other. */
  lemma {:induction false} DispatchReachesLast(resource: string, actions: seq<Action>, id: int, event: string)
    ensures Dispatched(After(resource, actions), Key(resource, id, Event, event))
         == LastRegistered(actions, id, event)
    decreases |actions|
  {
    if actions != [] {
      hide Key;
      var last := actions[|actions| - 1];
      DispatchReachesLast(resource, actions[..|actions| - 1], id, event);
      KeysInjective(resource, id, Event, event, last.id, Event, last.event);
    }
  }

  /** One dispatch after a run of registrations. */
  method Dispatch(manager: WebObjectEventManager, resource: string, ghost actions: seq<Action>, id: int, event: string)
    returns (called: Callback)
    requires manager.events == After(resource, actions)
    ensures called == LastRegistered(actions, id, event)
  {
    DispatchReachesLast(resource, actions, id, event);
    called := manager.OnObjectEvent(Key(resource, id, Event, event));
  }
}
