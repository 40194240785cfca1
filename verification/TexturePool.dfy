/** Textures imported from hardware buffers, and their deferred release: current, then old, then to be
    cleared, then destroyed. Drawing may fail anywhere; no texture is lost but by a retirement that
    meets its key among the old ones, and none is destroyed twice. */
module TexturePool {
  import opened Wrappers
  import opened VulkanDevice
  import opened BufferImport

  const MAX_RETAINED_FRAMES := 1

  /** A frame of the producer: the address of its buffer, and its size. */
  datatype AcquiredFrame = AcquiredFrame(buffer: nat, width: uint32, height: uint32)

  type TextureMap = map<nat, Texture>

  // ----- Maps of textures ---------------------------------------------------------------------------

  ghost function Handles(m: TextureMap): set<Handle> {
    (set k | k in m :: m[k].image) + (set k | k in m :: m[k].memory)
  }

  ghost function Images(m: TextureMap): set<Handle> {
    set k | k in m :: m[k].image
  }

  /** No two textures share anything. */
  ghost predicate Separate(m: TextureMap) {
    && (forall k :: k in m ==> Whole(m[k]))
    && (forall k, l :: k in m && l in m && k != l ==> m[k].image != m[l].image && m[k].memory != m[l].memory)
  }

  function Without(m: TextureMap, keys: set<nat>): TextureMap {
    map k | k in m && k !in keys :: m[k]
  }

  function Only(m: TextureMap, keys: set<nat>): TextureMap {
    map k | k in m && k in keys :: m[k]
  }

  /** Insertion that does not overwrite. */
  function Emplace(m: TextureMap, key: nat, t: Texture): TextureMap {
    if key in m then m else m[key := t]
  }

  /** Emplacing one by one, in whatever order, is one union in which the old entries win. */
  method EmplaceAll(source: TextureMap, target: TextureMap) returns (r: TextureMap)
    ensures r == source + target
  {
    r := target;
    var left := source.Keys;
    while left != {}
      invariant left <= source.Keys
      invariant r == Without(source, left) + target
      decreases left
    {
      if forall k :: k !in left {
        assert false;
      }
      var key :| key in left;
      r := Emplace(r, key, source[key]);
      left := left - {key};
    }
    assert Without(source, left) == source;
  }

  // ----- The books ----------------------------------------------------------------------------------

  /** A live handle belongs to exactly one of the three maps, is lost, or is somebody else's. */
  ghost predicate Balanced(live: set<Handle>, current: TextureMap, retired: TextureMap, clear: TextureMap,
                           leaked: set<Handle>, others: set<Handle>)
  {
    && live == Handles(current) + Handles(retired) + Handles(clear) + leaked + others
    && Handles(current) !! Handles(retired) !! Handles(clear) !! leaked !! others
    && Separate(current) && Separate(retired) && Separate(clear)
  }

  /** When the textures waiting for destruction were retired, in numbers of draws finished then. */
  ghost predicate Timed(retired: TextureMap, clear: TextureMap, retiredAt: map<Handle, nat>, draws: nat) {
    && (forall k :: k in retired ==> retired[k].image in retiredAt && retiredAt[retired[k].image] == draws)
    && (forall k :: k in clear ==> clear[k].image in retiredAt && retiredAt[clear[k].image] + 1 == draws)
  }

  /** `images` are retired now. */
  ghost function Marked(retiredAt: map<Handle, nat>, images: set<Handle>, draws: nat): map<Handle, nat> {
    map h | h in retiredAt.Keys + images :: if h in images then draws else retiredAt[h]
  }

  /** What retiring `source` loses: the textures whose keys are taken among the retired ones. */
  function Lost(source: TextureMap, retired: TextureMap): TextureMap {
    Only(source, retired.Keys)
  }

  /** Nothing is lost exactly when no key is taken. */
  lemma NothingLost(source: TextureMap, retired: TextureMap)
    ensures Handles(Lost(source, retired)) == {} <==> source.Keys !! retired.Keys
  {
    if k :| k in source && k in retired {
      assert k in Lost(source, retired);
      assert source[k].image in Handles(Lost(source, retired));
    }
  }

  lemma SplitHandles(m: TextureMap, keys: set<nat>)
    requires Separate(m)
    ensures Separate(Only(m, keys)) && Separate(Without(m, keys))
    ensures Handles(m) == Handles(Only(m, keys)) + Handles(Without(m, keys))
    ensures Handles(Only(m, keys)) !! Handles(Without(m, keys))
  {
    forall h | h in Handles(m)
      ensures h in Handles(Only(m, keys)) + Handles(Without(m, keys))
    {
      var k :| k in m && (h == m[k].image || h == m[k].memory);
      assert if k in keys then k in Only(m, keys) else k in Without(m, keys);
    }
  }

  lemma MergeHandles(source: TextureMap, target: TextureMap)
    requires Separate(source) && Separate(target) && Handles(source) !! Handles(target)
    ensures Separate(source + target)
    ensures Handles(source + target) == Handles(Without(source, target.Keys)) + Handles(target)
  {
    MergeSeparate(source, target);
    SplitHandles(source + target, target.Keys);
    assert Only(source + target, target.Keys) == target;
    assert Without(source + target, target.Keys) == Without(source, target.Keys);
  }

  lemma MergeSeparate(source: TextureMap, target: TextureMap)
    requires Separate(source) && Separate(target) && Handles(source) !! Handles(target)
    ensures Separate(source + target)
  {
    var m := source + target;
    hide Handles;
    forall k, l | k in m && l in m && k != l
      ensures m[k].image != m[l].image && m[k].memory != m[l].memory
    {
      InHandles(if k in target then target else source, k);
      InHandles(if l in target then target else source, l);
    }
  }

  lemma InHandles(m: TextureMap, k: nat)
    requires k in m
    ensures m[k].image in Handles(m) && m[k].memory in Handles(m)
  {
  }

  /** Retiring some of the current textures keeps the books, with what is lost entered as lost. */
  lemma Retire(live: set<Handle>, current: TextureMap, keys: set<nat>, retired: TextureMap, clear: TextureMap,
               leaked: set<Handle>, others: set<Handle>)
    requires Balanced(live, current, retired, clear, leaked, others)
    ensures var source := Only(current, keys);
            Balanced(live, Without(current, keys), source + retired, clear,
                     leaked + Handles(Lost(source, retired)), others)
  {
    hide Handles, Separate;
    var source := Only(current, keys);
    SplitHandles(current, keys);
    SplitHandles(source, retired.Keys);
    MergeHandles(source, retired);
  }

  lemma RetireTimes(source: TextureMap, retired: TextureMap, clear: TextureMap, retiredAt: map<Handle, nat>, draws: nat)
    requires Timed(retired, clear, retiredAt, draws)
    requires Separate(source) && Separate(clear) && Handles(source) !! Handles(clear)
    ensures Timed(source + retired, clear, Marked(retiredAt, Images(source), draws), draws)
  {
    forall k | k in clear
      ensures clear[k].image !in Images(source)
    {
      assert clear[k].image in Handles(clear);
      assert forall l :: l in source ==> source[l].image in Handles(source);
    }
  }

  lemma RetireBooks(live: set<Handle>, current: TextureMap, keys: set<nat>, retired: TextureMap, clear: TextureMap,
                    leaked: set<Handle>, others: set<Handle>, retiredAt: map<Handle, nat>, draws: nat)
    requires Balanced(live, current, retired, clear, leaked, others) && Timed(retired, clear, retiredAt, draws)
    ensures var source := Only(current, keys);
            && Balanced(live, Without(current, keys), source + retired, clear,
                        leaked + Handles(Lost(source, retired)), others)
            && Timed(source + retired, clear, Marked(retiredAt, Images(source), draws), draws)
  {
    Retire(live, current, keys, retired, clear, leaked, others);
    hide Handles, Separate, Timed;
    SplitHandles(current, keys);
    RetireTimes(Only(current, keys), retired, clear, retiredAt, draws);
  }

  lemma OnlyOne(m: TextureMap, retired: TextureMap, key: nat)
    requires key in m
    ensures Only(m, {key}) + retired == Emplace(retired, key, m[key])
    ensures Handles(Lost(Only(m, {key}), retired)) == if key in retired then Parts(m[key]) else {}
  {
    var lost := Lost(Only(m, {key}), retired);
    assert key in retired ==> key in lost && lost[key] == m[key];
  }

  /** A finished draw destroys one generation and ages the next. */
  lemma ShiftBooks(live: set<Handle>, current: TextureMap, retired: TextureMap, clear: TextureMap,
                   leaked: set<Handle>, others: set<Handle>, retiredAt: map<Handle, nat>, draws: nat)
    requires Balanced(live, current, retired, clear, leaked, others) && Timed(retired, clear, retiredAt, draws)
    ensures Handles(clear) <= live && Separate(clear)
    ensures Balanced(live - Handles(clear), current, map[], retired, leaked, others)
    ensures Timed(map[], retired, retiredAt, draws + 1)
    ensures forall k :: k in clear ==> clear[k].image in retiredAt && retiredAt[clear[k].image] == draws - 1
  {
    NoHandles();
    hide Handles, Separate;
  }

  /** Entering an imported texture. */
  lemma EnterTexture(live: set<Handle>, current: TextureMap, retired: TextureMap, clear: TextureMap,
                     leaked: set<Handle>, others: set<Handle>, key: nat, t: Texture, first: nat)
    requires Balanced(live, current, retired, clear, leaked, others) && key !in current
    requires forall h :: h in live ==> h.Handle? && h.id < first
    requires Whole(t) && t.image.id >= first && t.memory.id >= first
    ensures Balanced(live + Parts(t), current[key := t], retired, clear, leaked, others)
  {
    EnterHandles(current, key, t);
    assert t.image !in live && t.memory !in live;
    hide Handles, Separate, Parts;
  }

  lemma EnterHandles(current: TextureMap, key: nat, t: Texture)
    requires key !in current && Separate(current) && Whole(t)
    requires t.image !in Handles(current) && t.memory !in Handles(current)
    ensures Separate(current[key := t]) && Handles(current[key := t]) == Handles(current) + Parts(t)
  {
    var m := current[key := t];
    forall h | h in Handles(current) + Parts(t)
      ensures h in Handles(m)
    {
      if h in Parts(t) {
        assert key in m && m[key] == t;
      } else {
        var k :| k in current && (h == current[k].image || h == current[k].memory);
        assert k in m && m[k] == current[k];
      }
    }
  }

  // ----- Runs -----------------------------------------------------------------------------------------

  datatype Pool = Pool(
    current: TextureMap, retired: TextureMap, clear: TextureMap, last: Option<AcquiredFrame>, leaked: set<Handle>)

  /** What happens to a pool: a draw, with the producer's answers, the texture that was handed to the
      drawing library, if it came to that, and whether it was accepted; or the end of a draw. */
  datatype Event =
    | Draw(imageTexture: bool, acquired: Option<AcquiredFrame>, updated: bool, drawn: Option<Texture>, built: bool)
    | PostDraw

  const EMPTY := Pool(map[], map[], map[], None, {})

  /** The newest frame is taken over; an update retires every texture. */
  ghost function AfterFrame(p: Pool, imageTexture: bool, acquired: Option<AcquiredFrame>, updated: bool): Pool {
    if !imageTexture then p
    else
      var framed := if acquired.Some? then p.(last := acquired) else p;
      if !updated then framed
      else framed.(current := map[], retired := p.current + p.retired,
                   leaked := p.leaked + Handles(Lost(p.current, p.retired)))
  }

  /** The texture of a buffer is drawn, or else retired. */
  ghost function AfterUse(p: Pool, key: nat, t: Texture, built: bool): Pool {
    if built then p.(current := p.current[key := t])
    else p.(current := Without(p.current, {key}), retired := Emplace(p.retired, key, t),
            leaked := p.leaked + if key in p.retired then Parts(t) else {})
  }

  ghost function After(p: Pool, e: Event): Pool {
    match e
    case Draw(imageTexture, acquired, updated, drawn, built) =>
      var framed := AfterFrame(p, imageTexture, acquired, updated);
      if drawn.None? || framed.last.None? then framed
      else AfterUse(framed, framed.last.value.buffer, drawn.value, built)
    case PostDraw => p.(retired := map[], clear := p.retired)
  }

  ghost function Held(p: Pool): set<Handle> {
    Handles(p.current) + Handles(p.retired) + Handles(p.clear) + p.leaked
  }

  /** A texture is drawn only for a frame there is: the one kept for its buffer, or a new one. */
  ghost predicate Possible(p: Pool, e: Event) {
    e.Draw? ==>
      && (e.built ==> e.drawn.Some?)
      && (e.drawn.Some? ==>
            var framed := AfterFrame(p, e.imageTexture, e.acquired, e.updated);
            e.imageTexture && framed.last.Some? && Fitting(framed, framed.last.value.buffer, e.drawn.value, Held(p)))
  }

  ghost predicate Fitting(framed: Pool, key: nat, t: Texture, held: set<Handle>) {
    if key in framed.current then t == framed.current[key] else Whole(t) && Parts(t) !! held
  }

  /** A retirement meets a key that is taken among the retired ones. */
  ghost predicate Collides(p: Pool, e: Event) {
    && e.Draw? && e.imageTexture
    && var framed := AfterFrame(p, e.imageTexture, e.acquired, e.updated);
    || (e.updated && !(p.current.Keys !! p.retired.Keys))
    || (e.drawn.Some? && !e.built && framed.last.Some? && framed.last.value.buffer in framed.retired)
  }

  /** One event loses something exactly when it collides. */
  lemma LostIn(p: Pool, e: Event)
    requires Possible(p, e)
    ensures After(p, e).leaked == p.leaked || Collides(p, e)
    ensures p.leaked == {} ==> (After(p, e).leaked == {} <==> !Collides(p, e))
    ensures p.leaked <= After(p, e).leaked
  {
    hide Handles, Fitting;
    NothingLost(p.current, p.retired);
    assert p.leaked + {} == p.leaked;
    if e.Draw? && e.drawn.Some? {
      assert e.drawn.value.image in Parts(e.drawn.value);
    }
  }

  lemma FittingLess(framed: Pool, key: nat, t: Texture, held: set<Handle>, live: set<Handle>)
    requires Fitting(framed, key, t, live) && held <= live
    ensures Fitting(framed, key, t, held)
  {
    hide Parts;
  }

  lemma HeldLives(p: Pool, live: set<Handle>, others: set<Handle>)
    requires Balanced(live, p.current, p.retired, p.clear, p.leaked, others)
    ensures Held(p) <= live
  {
    hide Handles;
  }

  ghost function Run(events: seq<Event>): Pool {
    if events == [] then EMPTY else After(Run(events[..|events| - 1]), events[|events| - 1])
  }

  ghost predicate PossibleRun(events: seq<Event>) {
    events != [] ==>
      PossibleRun(events[..|events| - 1]) && Possible(Run(events[..|events| - 1]), events[|events| - 1])
  }

  lemma OneMoreEvent(events: seq<Event>, e: Event)
    ensures Run(events + [e]) == After(Run(events), e)
    ensures PossibleRun(events + [e]) <==> PossibleRun(events) && Possible(Run(events), e)
  {
    hide After, Possible;
    assert (events + [e])[..|events|] == events;
  }

  ghost predicate CollidesAt(events: seq<Event>, i: int) {
    0 <= i < |events| && Collides(Run(events[..i]), events[i])
  }

  /** Over every run nothing is lost if and only if no retirement ever met a taken key. */
  lemma {:induction false} LostInRun(events: seq<Event>)
    requires PossibleRun(events)
    ensures Run(events).leaked == {} <==> forall i :: !CollidesAt(events, i)
  {
    if events != [] {
      var front, n := events[..|events| - 1], |events| - 1;
      hide Possible, After, Collides, Run, PossibleRun;
      assert events == front + [events[n]];
      OneMoreEvent(front, events[n]);
      LostInRun(front);
      LostIn(Run(front), events[n]);
      CollisionsBefore(front, events[n]);
    } else {
      assert forall i :: !CollidesAt(events, i);
    }
  }

  lemma CollisionsBefore(front: seq<Event>, e: Event)
    ensures (forall i :: !CollidesAt(front + [e], i)) <==> !Collides(Run(front), e) && forall i :: !CollidesAt(front, i)
  {
    hide Collides, Run;
    var events := front + [e];
    assert events[..|front|] == front;
    assert CollidesAt(events, |front|) <==> Collides(Run(front), e);
    forall i | 0 <= i < |front|
      ensures CollidesAt(events, i) <==> CollidesAt(front, i)
    {
      assert events[..i] == front[..i];
    }
    if i :| CollidesAt(front, i) {
      assert CollidesAt(events, i);
    }
  }

  /** What a draw does to the current textures: the one drawn is current, or, refused, is not; an update
      takes away all others, and nothing else does. */
  lemma DrawnCurrent(p: Pool, e: Event)
    requires Possible(p, e) && e.Draw? && e.drawn.Some?
    ensures var q := After(p, e);
            && q.last == (if e.acquired.Some? then e.acquired else p.last) && q.last.Some? && q.clear == p.clear
            && var key := q.last.value.buffer;
            && (e.built ==> key in q.current && q.current[key] == e.drawn.value)
            && (!e.built ==> key !in q.current)
            && (forall k :: k != key ==> (k in q.current <==> !e.updated && k in p.current))
            && (forall k :: k != key && k in q.current ==> q.current[k] == p.current[k])
  {
    hide Handles, Whole, Parts, Emplace, Lost;
  }

  /** And to the retired ones: the one refused waits among them under its key, an update moves all others
      there, and no entry is ever replaced or taken away. */
  lemma DrawnRetired(p: Pool, e: Event)
    requires Possible(p, e) && e.Draw? && e.drawn.Some?
    ensures var q := After(p, e);
            && q.last.Some? && var key := q.last.value.buffer;
            && (forall k :: k in p.retired ==> k in q.retired && q.retired[k] == p.retired[k])
            && (forall k :: k in q.retired <==>
                  k in p.retired || (e.updated && k in p.current) || (!e.built && k == key))
            && (forall k :: e.updated && k in p.current && k !in p.retired ==> q.retired[k] == p.current[k])
            && (!e.built && key !in p.retired && !(e.updated && key in p.current) ==>
                  q.retired[key] == e.drawn.value)
  {
    hide Handles, Whole, Parts, Lost, Without;
  }

  ghost predicate Refused(p: Pool, e: Event, key: nat) {
    && Possible(p, e) && e.Draw? && e.drawn.Some? && !e.built
    && AfterFrame(p, e.imageTexture, e.acquired, e.updated).last.value.buffer == key
  }

  /** Two draws of one buffer that are refused without the end of a draw in between lose the second
      texture, in whatever pool, with an update or without. */
  lemma SecondRefusalLost(p: Pool, e: Event, e': Event, key: nat)
    requires Refused(p, e, key) && Refused(After(p, e), e', key)
    ensures Parts(e'.drawn.value) <= After(After(p, e), e').leaked && Collides(After(p, e), e')
  {
    hide Handles, Parts, Whole;
    assert key in After(p, e).retired;
  }

  /** Such a run from the empty pool: one frame, two draws, both refused. */
  lemma LossHappens(t: Texture, t': Texture)
    requires Whole(t) && Whole(t') && Parts(t) !! Parts(t')
    ensures var events := [Draw(true, Some(AcquiredFrame(1, 8, 8)), false, Some(t), false),
                           Draw(true, None, false, Some(t'), false)];
            PossibleRun(events) && Run(events).leaked == Parts(t')
  {
    var e := Draw(true, Some(AcquiredFrame(1, 8, 8)), false, Some(t), false);
    var e' := Draw(true, None, false, Some(t'), false);
    hide Run, PossibleRun, Whole, Parts, Handles;
    var p, p' := After(EMPTY, e), After(After(EMPTY, e), e');
    assert [] + [e] == [e] && [e] + [e'] == [e, e'];
    EmptyRun();
    OneMoreEvent([], e);
    OneMoreEvent([e], e');
    NoHandles();
    assert p.retired == map[][1 := t] && p.current == map[];
    EnterHandles(map[], 1, t);
    assert Held(p) == Parts(t);
    assert Possible(EMPTY, e) && Possible(p, e');
  }

  lemma EmptyRun()
    ensures Run([]) == EMPTY && PossibleRun([])
  {
  }

  /** The texture has an image of this size, bound to memory that is imported from this buffer. */
  ghost predicate Imported(imageInfo: map<Handle, ImageInfo>, memoryInfo: map<Handle, MemoryInfo>,
                           boundTo: map<Handle, Handle>, t: Texture, buffer: nat, width: int, height: int)
  {
    && t.image in imageInfo && imageInfo[t.image].width == width && imageInfo[t.image].height == height
    && imageInfo[t.image].depth == 1
    && t.memory in memoryInfo && memoryInfo[t.memory].buffer == buffer
    && t.image in boundTo && boundTo[t.image] == t.memory
  }

  // ----- The pool -----------------------------------------------------------------------------------

  /** Destroy the image and the memory of every texture of a map. */
  method DestroyTextures(device: Device, m: TextureMap)
    requires device.Valid() && Handles(m) <= device.live && Separate(m)
    modifies device`live
    ensures device.Valid() && device.live == old(device.live) - Handles(m)
  {
    hide Handles, Separate;
    var left := m.Keys;
    assert Only(m, left) == m;
    while left != {}
      invariant left <= m.Keys && device.Valid()
      invariant Separate(Only(m, left)) && Handles(Only(m, left)) <= device.live
      invariant device.live == old(device.live) - (Handles(m) - Handles(Only(m, left)))
      decreases left
    {
      if forall k :: k !in left {
        assert false;
      }
      var key :| key in left;
      OneLess(m, left, key);
      device.Destroy(m[key].image);
      device.Destroy(m[key].memory);
      left := left - {key};
    }
    assert Only(m, left) == map[];
    NoHandles();
  }

  lemma NoHandles()
    ensures Handles(map[]) == {} && Separate(map[])
  {
  }

  /** Taking one texture out takes out its two parts. */
  lemma OneLess(m: TextureMap, left: set<nat>, key: nat)
    requires key in left && left <= m.Keys && Separate(Only(m, left))
    ensures Whole(m[key]) && m[key].image != m[key].memory
    ensures m[key].image in Handles(m) && m[key].memory in Handles(m)
    ensures Handles(Only(m, left)) == Handles(Only(m, left - {key})) + {m[key].image} + {m[key].memory}
    ensures m[key].image !in Handles(Only(m, left - {key})) && m[key].memory !in Handles(Only(m, left - {key}))
    ensures Separate(Only(m, left - {key}))
  {
    var rest := Only(m, left - {key});
    assert Only(m, left) == rest[key := m[key]];
    assert forall k :: k in rest ==> rest[k] == Only(m, left)[k];
    assert Only(m, left)[key] == m[key];
    EnterHandles(rest, key, m[key]);
  }

  class AndroidSurfaceTextureVK {
    const device: Device
    var current: TextureMap
    var retired: TextureMap
    var clear: TextureMap
    var lastHardwareBuffer: Option<AcquiredFrame>
    var retainedFrames: seq<AcquiredFrame>
    var textureWidth: uint32
    var textureHeight: uint32
    /** Live handles that are no business of this object, and those it has lost. */
    ghost var others: set<Handle>
    ghost var leaked: set<Handle>
    /** How many draws were finished, and how many had been when a texture was retired. */
    ghost var draws: nat
    ghost var retiredAt: map<Handle, nat>

    ghost function State(): Pool
      reads this
    {
      Pool(current, retired, clear, lastHardwareBuffer, leaked)
    }

    ghost predicate Valid()
      reads this, device`live, device`next, device`surfaceOf, device`imageCountOf
    {
      && device.Valid()
      && Balanced(device.live, current, retired, clear, leaked, others)
      && Timed(retired, clear, retiredAt, draws)
      && |retainedFrames| <= MAX_RETAINED_FRAMES
    }

    constructor (device: Device)
      requires device.Valid()
      ensures Valid() && fresh(this) && this.device == device
      ensures current == retired == clear == map[] && lastHardwareBuffer == None && retainedFrames == []
      ensures leaked == {} && others == device.live && draws == 0
    {
      this.device := device;
      current, retired, clear := map[], map[], map[];
      lastHardwareBuffer, retainedFrames := None, [];
      textureWidth, textureHeight := 0, 0;
      others, leaked, draws, retiredAt := device.live, {}, 0, map[];
    }

    /** Queue a frame, and drop the oldest ones beyond the limit. */
    method Retain(frame: AcquiredFrame)
      modifies this`retainedFrames
      ensures retainedFrames == [frame]
    {
      retainedFrames := retainedFrames + [frame];
      while |retainedFrames| > MAX_RETAINED_FRAMES
        invariant retainedFrames != [] && retainedFrames[|retainedFrames| - 1] == frame
      {
        retainedFrames := retainedFrames[1..];
      }
    }

    /** Take over the newest frame, keeping the one before it alive, and retire every texture when the
        producer asks for an update. */
    method GetHardwareBuffer(imageTexture: bool, acquired: Option<AcquiredFrame>, updated: bool) returns (ok: bool)
      requires Valid()
      modifies this
      ensures Valid() && others == old(others) && draws == old(draws) && clear == old(clear)
      ensures ok <==> imageTexture && lastHardwareBuffer.Some?
      ensures lastHardwareBuffer == if imageTexture && acquired.Some? then acquired else old(lastHardwareBuffer)
      ensures retainedFrames == if imageTexture && acquired.Some? && old(lastHardwareBuffer).Some?
                                then [old(lastHardwareBuffer).value] else old(retainedFrames)
      ensures current == if imageTexture && updated then map[] else old(current)
      ensures retired == if imageTexture && updated then old(current) + old(retired) else old(retired)
      ensures leaked == if imageTexture && updated then old(leaked) + Handles(Lost(old(current), old(retired)))
                        else old(leaked)
      ensures ok ==> textureWidth == lastHardwareBuffer.value.width && textureHeight == lastHardwareBuffer.value.height
    {
      hide Handles, Separate, Balanced, Timed;
      if !imageTexture {
        return false;
      }
      if acquired.Some? {
        if lastHardwareBuffer.Some? {
          Retain(lastHardwareBuffer.value);
        }
        lastHardwareBuffer := acquired;
      }
      if updated {
        RetireAll();
      }
      if lastHardwareBuffer.None? {
        return false;
      }
      textureWidth, textureHeight := lastHardwareBuffer.value.width, lastHardwareBuffer.value.height;
      return true;
    }

    method RetireAll()
      requires Valid()
      modifies this`current, this`retired, this`leaked, this`retiredAt
      ensures Valid() && current == map[] && retired == old(current) + old(retired)
      ensures leaked == old(leaked) + Handles(Lost(old(current), old(retired)))
    {
      hide Handles, Separate, Balanced, Timed, Marked, Images;
      RetireBooks(device.live, current, current.Keys, retired, clear, leaked, others, retiredAt, draws);
      assert Only(current, current.Keys) == current && Without(current, current.Keys) == map[];
      leaked, retiredAt := leaked + Handles(Lost(current, retired)), Marked(retiredAt, Images(current), draws);
      retired := EmplaceAll(current, retired);
      current := map[];
    }

    method RetireOne(key: nat)
      requires Valid() && key in current
      modifies this`current, this`retired, this`leaked, this`retiredAt
      ensures Valid() && current == Without(old(current), {key})
      ensures retired == Emplace(old(retired), key, old(current)[key])
      ensures leaked == old(leaked) + if key in old(retired) then Parts(old(current)[key]) else {}
    {
      hide Handles, Separate, Balanced, Timed, Marked, Images, Emplace, Only, Without, Lost, Parts;
      ghost var one := Only(current, {key});
      RetireBooks(device.live, current, {key}, retired, clear, leaked, others, retiredAt, draws);
      OnlyOne(current, retired, key);
      leaked, retiredAt := leaked + Handles(Lost(one, retired)), Marked(retiredAt, Images(one), draws);
      retired := Emplace(retired, key, current[key]);
      current := Without(current, {key});
    }

    /** Import the buffer unless its texture is there. */
    method EnsureTexture(key: nat) returns (ok: bool)
      requires Valid()
      modifies this`current, device`live, device`next, device`imageInfo, device`memoryInfo, device`boundTo
      ensures Valid() && ok == (key in current)
      ensures current == old(current) ||
              (key !in old(current) && key in current && current == old(current)[key := current[key]])
      ensures device.live == old(device.live) +
                if key in current && key !in old(current) then Parts(current[key]) else {}
      ensures key in current && key !in old(current) ==> Whole(current[key]) && Parts(current[key]) !! old(device.live)
      ensures key in current && key !in old(current) ==>
                Imported(device.imageInfo, device.memoryInfo, device.boundTo, current[key], key,
                         textureWidth as int, textureHeight as int)
    {
      hide Handles, Separate, Balanced;
      if key !in current {
        ghost var before, first := device.live, device.next;
        var texture;
        ghost var properties;
        texture, properties := MakeVKTextureInfoFromHardwareBuffer(device, key, textureWidth, textureHeight);
        if texture.None? {
          return false;
        }
        EnterTexture(before, current, retired, clear, leaked, others, key, texture.value, first);
        current := current[key := texture.value];
      }
      return true;
    }

    /** Draw the newest frame; `drawn` is the texture handed to the drawing library, which may refuse
        it. Without one the pool is as the frame left it; one that was refused is retired; and nothing
        is destroyed here. */
    method OnCreateTextureImage(imageTexture: bool, acquired: Option<AcquiredFrame>, updated: bool)
      returns (ok: bool, ghost drawn: Option<Texture>)
      requires Valid()
      modifies this, device`live, device`next, device`imageInfo, device`memoryInfo, device`boundTo
      ensures Valid() && others == old(others) && draws == old(draws) && clear == old(clear)
      ensures State() == After(old(State()), Draw(imageTexture, acquired, updated, drawn, ok))
      ensures Possible(old(State()), Draw(imageTexture, acquired, updated, drawn, ok))
      ensures var framed := AfterFrame(old(State()), imageTexture, acquired, updated);
              device.live == old(device.live) +
                if drawn.Some? && framed.last.value.buffer !in framed.current then Parts(drawn.value) else {}
      ensures var framed := AfterFrame(old(State()), imageTexture, acquired, updated);
              drawn.Some? && framed.last.value.buffer !in framed.current ==>
                && lastHardwareBuffer.Some? && drawn.value.image in device.imageInfo
                && var info, frame := device.imageInfo[drawn.value.image], lastHardwareBuffer.value;
                && info.width == frame.width as int && info.height == frame.height as int && info.depth == 1
                && drawn.value.memory in device.memoryInfo
                && device.memoryInfo[drawn.value.memory].buffer == frame.buffer
                && drawn.value.image in device.boundTo && device.boundTo[drawn.value.image] == drawn.value.memory
      ensures imageTexture && acquired.Some? ==> lastHardwareBuffer == acquired
      ensures !imageTexture || acquired.None? ==> lastHardwareBuffer == old(lastHardwareBuffer)
      ensures imageTexture && !updated && lastHardwareBuffer.Some? ==>
                lastHardwareBuffer.value.buffer in old(current) ==> drawn.Some?
    {
      hide Handles, Held, Lost, Fitting, AfterUse;
      HeldLives(State(), device.live, others);
      drawn := None;
      var got := GetHardwareBuffer(imageTexture, acquired, updated);
      if !got {
        return false, None;
      }
      ghost var framed := State();
      ok, drawn := DrawBuffer(lastHardwareBuffer.value.buffer);
      if drawn.Some? {
        FittingLess(framed, lastHardwareBuffer.value.buffer, drawn.value, old(Held(State())), old(device.live));
      }
    }

    /** Draw the texture of a buffer, importing it if need be, and retiring it if it is refused. */
    method DrawBuffer(key: nat) returns (ok: bool, ghost drawn: Option<Texture>)
      requires Valid()
      modifies this`current, this`retired, this`leaked, this`retiredAt
      modifies device`live, device`next, device`imageInfo, device`memoryInfo, device`boundTo
      ensures Valid() && (ok ==> drawn.Some?) && (key in old(current) ==> drawn.Some?)
      ensures State() == if drawn.None? then old(State()) else AfterUse(old(State()), key, drawn.value, ok)
      ensures drawn.Some? ==> Fitting(old(State()), key, drawn.value, old(device.live))
      ensures drawn.Some? && key !in old(current) ==>
                Imported(device.imageInfo, device.memoryInfo, device.boundTo, drawn.value, key,
                         textureWidth as int, textureHeight as int)
      ensures device.live == old(device.live) + if drawn.Some? && key !in old(current) then Parts(drawn.value) else {}
    {
      hide Handles, Separate, Parts, Whole, Balanced, Timed, Emplace, Lost;
      drawn := None;
      ghost var current0 := current;
      var there := EnsureTexture(key);
      if !there {
        return false, None;
      }
      drawn := Some(current[key]);
      assert Without(current, {key}) == Without(current0, {key});
      var built := *;
      if !built {
        RetireOne(key);
        return false, drawn;
      }
      return true, drawn;
    }

    method ReleaseTextureInfoMap(m: TextureMap)
      requires device.Valid() && Handles(m) <= device.live && Separate(m)
      modifies device`live
      ensures device.Valid() && device.live == old(device.live) - Handles(m)
    {
      DestroyTextures(device, m);
    }

    /** Destroyed are exactly the textures for which this is the second draw to finish since they were
        retired; those for which it is the first are next. */
    method OnPostDraw()
      requires Valid()
      modifies this`retired, this`clear, this`draws, device`live
      ensures Valid() && draws == old(draws) + 1
      ensures State() == After(old(State()), PostDraw)
      ensures clear == old(retired) && retired == map[] && current == old(current)
      ensures device.live == old(device.live) - Handles(old(clear))
      ensures forall k :: k in old(clear) ==> old(retiredAt)[old(clear)[k].image] == old(draws) - 1
    {
      hide Handles, Separate, Balanced, Timed;
      ShiftBooks(device.live, current, retired, clear, leaked, others, retiredAt, draws);
      ReleaseTextureInfoMap(clear);
      clear := map[];
      clear := EmplaceAll(retired, clear);
      assert retired + map[] == retired;
      retired := map[];
      draws := draws + 1;
    }

    /** The destructor destroys everything the three maps hold. */
    method Destroy()
      requires Valid()
      modifies this`current, this`retired, this`clear, this`lastHardwareBuffer, device`live
      ensures device.Valid() && device.live == leaked + others
      ensures current == retired == clear == map[] && lastHardwareBuffer == None
    {
      hide Handles, Separate;
      ReleaseTextureInfoMap(current);
      current := map[];
      ReleaseTextureInfoMap(retired);
      retired := map[];
      ReleaseTextureInfoMap(clear);
      clear := map[];
      lastHardwareBuffer := None;
    }
  }
}
