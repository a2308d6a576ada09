/**
  The fixed-capacity recycling pool of the game script (`function Pool(maxSize)`).

  The pool is an array of `size` pre-built elements. `get` recycles the element in
  the last slot when it is dead, `getTwo` does the same for the last two slots or
  nothing, and `animate` draws the alive elements from the front and moves the
  ones that leave the screen to the tail. Elements are never created after `init`.

  What an element does when it is spawned, drawn or cleared belongs to the element
  class, so those three behaviours are parameters (`Behaviour`): spawning marks an
  element alive, clearing marks it dead, and drawing reports whether it went off
  screen. Each element carries an `id` standing for the identity of the JavaScript
  object, so that "the pool only permutes its elements" can be stated.
*/
module RecyclingPool {

  /** The result of a pool operation. `Undefined(i)` is the TypeError the script
      raises when it reads `.alive` of slot `i` and the array has no element there
      (a pool never filled with walls, or a capacity too small for the request). */
  datatype Result<R> = Ok(value: R) | Undefined(index: int)

  /** The arguments of `get(x, y, speed)`. */
  datatype SpawnArgs = SpawnArgs(x: real, y: real, speed: real)

  /** What an element's `draw()` leaves behind: its new state, and whether it
      reported that it left the screen. */
  datatype DrawResult<T> = DrawResult(data: T, offScreen: bool)

  /** The element class's own `spawn`, `draw` and `clear`, acting on its payload. */
  datatype Behaviour<!T> = Behaviour(
    spawn: (T, SpawnArgs) -> T,
    draw: T -> DrawResult<T>,
    clear: T -> T)

  /** One pooled object: its identity, its liveness flag and its payload. */
  datatype Elem<T> = Elem(id: nat, alive: bool, data: T)

  /** The pool: the capacity `size` fixed at construction and the array `pool`. */
  datatype Pool<T> = Pool(size: int, slots: seq<Elem<T>>)

  function Spawn<T>(e: Elem<T>, args: SpawnArgs, b: Behaviour<T>): (r: Elem<T>)
  {
    e.(alive := true, data := b.spawn(e.data, args))
  }

  function Redraw<T>(e: Elem<T>, b: Behaviour<T>): (r: Elem<T>)
  {
    e.(data := b.draw(e.data).data)
  }

  function Clear<T>(e: Elem<T>, b: Behaviour<T>): (r: Elem<T>)
  {
    e.(alive := false, data := b.clear(e.data))
  }

  /** The identities of the elements, slot by slot. */
  function Ids<T>(s: seq<Elem<T>>): (ids: seq<nat>)
  {
    seq(|s|, k requires 0 <= k < |s| => s[k].id)
  }

  /** The number of alive elements. */
  function CountAlive<T>(s: seq<Elem<T>>): (n: nat)
  {
    if s == [] then 0 else (if s[0].alive then 1 else 0) + CountAlive(s[1..])
  }

  /** The layout the pool is designed around: no alive element follows a dead one. */
  ghost predicate AlivePrefix<T>(s: seq<Elem<T>>)
  {
    forall j, k :: 0 <= j < k < |s| && s[k].alive ==> s[j].alive
  }

  ghost predicate DistinctIds<T>(s: seq<Elem<T>>)
  {
    forall j, k :: 0 <= j < k < |s| ==> s[j].id != s[k].id
  }

  /** A pool as the game uses it: filled, with its alive elements in front, and
      no JavaScript object in two slots at once. */
  ghost predicate Valid<T>(p: Pool<T>)
  {
    1 <= p.size && |p.slots| == p.size && AlivePrefix(p.slots) && DistinctIds(p.slots)
  }

  /** `pool.unshift(pool.pop())`: the last element moves to the front. */
  function RotateRight<X>(s: seq<X>): (r: seq<X>)
    requires |s| > 0
    ensures |r| == |s| && r[0] == s[|s| - 1]
    ensures forall k :: 1 <= k < |s| ==> r[k] == s[k - 1]
  {
    [s[|s| - 1]] + s[..|s| - 1]
  }

  /** `pool.push(pool.splice(i, 1)[0])`: element `i` moves to the back. */
  function MoveToTail<X>(s: seq<X>, i: nat): (r: seq<X>)
    requires i < |s|
    ensures |r| == |s| && r[|s| - 1] == s[i]
    ensures forall k :: 0 <= k < |s| - 1 ==> r[k] == if k < i then s[k] else s[k + 1]
  {
    s[..i] + s[i + 1..] + [s[i]]
  }

  /** `new Pool(maxSize)` followed by `init(kind)`. Only the kind "wall" fills the
      array; each slot then holds a new wall whose `alive` is never set, so it is
      dead. */
  function Create<T>(maxSize: int, kind: string, blank: T): (p: Pool<T>)
    ensures p.size == maxSize
    ensures kind == "wall" && maxSize >= 0 ==> |p.slots| == maxSize
    ensures kind != "wall" || maxSize <= 0 ==> p.slots == []
    ensures forall k :: 0 <= k < |p.slots| ==>
              !p.slots[k].alive && p.slots[k].id == k && p.slots[k].data == blank
  {
    Pool(maxSize, if kind == "wall" && maxSize > 0 then seq(maxSize, k requires 0 <= k < maxSize => Elem(k, false, blank)) else [])
  }

  /** `get(x, y, speed)`: recycle the element in slot `size - 1` if it is dead,
      otherwise drop the request. */
  function Get<T>(p: Pool<T>, args: SpawnArgs, b: Behaviour<T>): (r: Result<Pool<T>>)
    ensures r.Undefined? <==> !(1 <= p.size <= |p.slots|)
    ensures r.Ok? ==> r.value.size == p.size && |r.value.slots| == |p.slots|
    ensures 1 <= p.size == |p.slots| && p.slots[p.size - 1].alive ==> r == Ok(p)
    ensures 1 <= p.size == |p.slots| && !p.slots[p.size - 1].alive ==>
              && r.Ok?
              && r.value.slots[0] == Spawn(p.slots[p.size - 1], args, b)
              && forall k :: 1 <= k < p.size ==> r.value.slots[k] == p.slots[k - 1]
  {
    var last := p.size - 1;
    if !(0 <= last < |p.slots|) then Undefined(last)
    else if p.slots[last].alive then Ok(p)
    else Ok(p.(slots := RotateRight(p.slots[last := Spawn(p.slots[last], args, b)])))
  }

  /** `getTwo(x1, y1, speed1, x2, y2, speed2)`: two `get`s when both of the last two
      slots are dead, nothing otherwise. The condition short-circuits, so slot
      `size - 2` is read only when slot `size - 1` is dead. */
  function GetTwo<T>(p: Pool<T>, first: SpawnArgs, second: SpawnArgs, b: Behaviour<T>): (r: Result<Pool<T>>)
    ensures r.Undefined? <==>
              !(1 <= p.size <= |p.slots|) || (!p.slots[p.size - 1].alive && p.size < 2)
    ensures r.Ok? ==> r.value.size == p.size && |r.value.slots| == |p.slots|
    ensures 2 <= p.size == |p.slots| && (p.slots[p.size - 1].alive || p.slots[p.size - 2].alive) ==>
              r == Ok(p)
    ensures 2 <= p.size == |p.slots| && !p.slots[p.size - 1].alive && !p.slots[p.size - 2].alive ==>
              && r.Ok?
              && r.value.slots[0] == Spawn(p.slots[p.size - 2], second, b)
              && r.value.slots[1] == Spawn(p.slots[p.size - 1], first, b)
              && forall k :: 2 <= k < p.size ==> r.value.slots[k] == p.slots[k - 2]
  {
    var last := p.size - 1;
    if !(0 <= last < |p.slots|) then Undefined(last)
    else if p.slots[last].alive then Ok(p)
    else if !(0 <= last - 1 < |p.slots|) then Undefined(last - 1)
    else if p.slots[last - 1].alive then Ok(p)
    else
      match Get(p, first, b)
      case Ok(p1) => Get(p1, second, b)
      case Undefined(i) => Undefined(i)
  }

  /** The loop of `animate()` from index `i` on: draw each alive element; one that
      reports leaving the screen is cleared and spliced out to the tail, and `i`
      still advances, so the element that slid into slot `i` is not drawn on this
      pass. The first dead element ends the loop. */
  function AnimateFrom<T>(p: Pool<T>, i: nat, b: Behaviour<T>): (r: Result<Pool<T>>)
    ensures r.Ok? ==> r.value.size == p.size && |r.value.slots| == |p.slots|
    decreases p.size - i
  {
    if i >= p.size then Ok(p)
    else if i >= |p.slots| then Undefined(i)
    else if !p.slots[i].alive then Ok(p)
    else
      var e := Redraw(p.slots[i], b);
      if b.draw(p.slots[i].data).offScreen then
        AnimateFrom(p.(slots := MoveToTail(p.slots[i := Clear(e, b)], i)), i + 1, b)
      else
        AnimateFrom(p.(slots := p.slots[i := e]), i + 1, b)
  }

  /** `animate()`, written as the script's loop over the array. */
  method Animate<T>(p: Pool<T>, b: Behaviour<T>) returns (r: Result<Pool<T>>)
    ensures r == AnimateFrom(p, 0, b)
  {
    var slots := p.slots;
    var i: nat := 0;
    while i < p.size
      invariant |slots| == |p.slots|
      invariant AnimateFrom(p.(slots := slots), i, b) == AnimateFrom(p, 0, b)
      decreases p.size - i
    {
      if i >= |slots| {
        return Undefined(i);
      }
      if !slots[i].alive {
        break;
      }
      var drawn := b.draw(slots[i].data);
      var e := slots[i].(data := drawn.data);
      if drawn.offScreen {
        slots := MoveToTail(slots[i := Clear(e, b)], i);
      } else {
        slots := slots[i := e];
      }
      i := i + 1;
    }
    return Ok(p.(slots := slots));
  }
}
