/** The script arrays of src/client/module/scripting.hpp: `array<T>` over blocks of raw memory in which
    elements are constructed, moved from and destroyed by hand. */
module ScriptArray {
  import opened Options
  import opened Words

  datatype Outcome<+T> = Ok(value: T) | Throws

  /** A place for an element: no object, an object, or an object that has been moved from. */
  datatype Cell<T> = Nothing | Object(value: T) | Husk

  type Block<T> = seq<Cell<T>>
  type Blocks<T> = map<nat, Block<T>>

  // ---- Memory ----

  /** The game's allocator. An allocation is named by a number that is never used again, so freeing a block
      twice, or using it afterwards, would be a use of a name that is not there. */
  class Heap<T> {
    var blocks: Blocks<T>
    var next: nat

    ghost predicate Valid()
      reads this
    {
      forall b | b in blocks :: b < next
    }

    constructor ()
      ensures Valid() && blocks == map[]
    {
      blocks, next := map[], 0;
    }

    method Allocate(count: nat) returns (b: nat)
      requires Valid()
      modifies this
      ensures Valid() && b == old(next) && next == b + 1 && b !in old(blocks)
      ensures blocks == old(blocks)[b := Empty(count)]
    {
      b := next;
      next := next + 1;
      blocks := blocks[b := Empty(count)];
    }

    /** Only memory without objects may go back. */
    method Free(b: nat)
      requires Valid() && b in blocks && forall c | c in blocks[b] :: c == Nothing
      modifies this`blocks
      ensures Valid() && blocks == old(blocks) - {b}
    {
      blocks := blocks - {b};
    }

    /** Placement new, on a place that holds no object. */
    method Construct(b: nat, i: nat, c: Cell<T>)
      requires Valid() && b in blocks && i < |blocks[b]| && blocks[b][i] == Nothing && c != Nothing
      modifies this`blocks
      ensures Valid() && blocks == old(blocks)[b := old(blocks)[b][i := c]]
    {
      blocks := blocks[b := blocks[b][i := c]];
    }

    /** A destructor call, on an object that is there. */
    method Destroy(b: nat, i: nat)
      requires Valid() && b in blocks && i < |blocks[b]| && blocks[b][i] != Nothing
      modifies this`blocks
      ensures Valid() && blocks == old(blocks)[b := old(blocks)[b][i := Nothing]]
    {
      blocks := blocks[b := blocks[b][i := Nothing]];
    }

    /** `std::move` out of an object, which stays behind as a husk. */
    method MoveFrom(b: nat, i: nat) returns (c: Cell<T>)
      requires Valid() && b in blocks && i < |blocks[b]| && blocks[b][i] != Nothing
      modifies this`blocks
      ensures Valid() && c == old(blocks)[b][i]
      ensures blocks == old(blocks)[b := old(blocks)[b][i := Husk]]
    {
      c := blocks[b][i];
      blocks := blocks[b := blocks[b][i := Husk]];
    }
  }

  function Empty<T>(n: nat): (s: Block<T>)
    ensures |s| == n && forall i | 0 <= i < n :: s[i] == Nothing
  {
    seq(n, _ => Nothing)
  }

  // ---- Ownership ----

  function Own(values: Option<nat>): set<nat> {
    if values.Some? then {values.value} else {}
  }

  /** Nothing outside the named blocks is different. */
  ghost predicate Elsewhere<T>(before: Blocks<T>, after: Blocks<T>, except: set<nat>) {
    forall b | b !in except :: (b in before <==> b in after) && (b in before ==> after[b] == before[b])
  }

  /** One array went from owning `mine` to owning `yours`: its old block is freed unless kept, its new one was
      not there before, and no other block is different. */
  ghost predicate Reowned<T>(before: Blocks<T>, mine: Option<nat>, after: Blocks<T>, yours: Option<nat>) {
    && Elsewhere(before, after, Own(mine) + Own(yours))
    && (mine.Some? && yours != mine ==> mine.value !in after)
    && (yours.Some? && yours != mine ==> yours.value !in before)
    && (yours.Some? ==> yours.value in after)
  }

  // ---- The array ----

  function Resized<T>(s: seq<T>, count: nat, element: T): (r: seq<T>)
    ensures |r| == count
    ensures forall i | 0 <= i < count :: r[i] == if i < |s| then s[i] else element
  {
    if count <= |s| then s[..count] else s + seq(count - |s|, _ => element)
  }

  function Taken<T>(block: Block<T>, n: nat): (s: seq<T>)
    requires n <= |block| && forall i | 0 <= i < n :: block[i].Object?
    ensures |s| == n && forall i | 0 <= i < n :: Object(s[i]) == block[i]
  {
    seq(n, i requires 0 <= i < n => block[i].value)
  }

  function Objects<T>(s: seq<T>): (block: Block<T>)
    ensures |block| == |s| && forall i | 0 <= i < |s| :: block[i] == Object(s[i])
  {
    seq(|s|, i requires 0 <= i < |s| => Object(s[i]))
  }

  class Array<T> {
    var values: Option<nat>
    var length: nat
    const heap: Heap<T>

    /** The block of the array holds objects below the length and nothing above it. */
    ghost predicate Valid()
      reads this, heap
    {
      && heap.Valid()
      && length < TWO_32
      && (values.None? ==> length == 0)
      && (values.Some? ==> values.value in heap.blocks && Fits(heap.blocks[values.value], length))
    }

    /** None of the objects has been moved from. */
    ghost predicate Full()
      reads this, heap
      requires Valid()
    {
      forall i | 0 <= i < length :: heap.blocks[values.value][i].Object?
    }

    /** The elements, as a walk from `begin` to `end` sees them. */
    function Contents(): (s: seq<T>)
      reads this, heap
      requires Valid() && Full()
      ensures |s| == length
    {
      if values.None? then [] else Taken(heap.blocks[values.value], length)
    }

    /** An array without a block. */
    constructor (heap: Heap<T>)
      requires heap.Valid()
      ensures this.heap == heap && Valid() && values.None? && Full() && Contents() == []
    {
      this.heap := heap;
      values, length := None, 0;
    }

    /** The move, destructor call and shortening of `pop_back`. */
    method PopCell() returns (c: Cell<T>)
      requires Valid() && length > 0
      modifies this`length, heap`blocks
      ensures Valid() && length == old(length) - 1
      ensures c == old(heap.blocks[values.value][length - 1])
      ensures Elsewhere(old(heap.blocks), heap.blocks, Own(values))
      ensures forall i | 0 <= i < length :: heap.blocks[values.value][i] == old(heap.blocks)[values.value][i]
    {
      var b := values.value;
      c := heap.MoveFrom(b, length - 1);
      heap.Destroy(b, length - 1);
      length := length - 1;
    }

    method PopBack() returns (r: Outcome<T>)
      requires Valid() && Full()
      modifies this`length, heap`blocks
      ensures Valid() && Full() && Reowned(old(heap.blocks), values, heap.blocks, values)
      ensures old(Contents()) == [] ==> r == Throws && Contents() == []
      ensures old(Contents()) != [] ==>
          var n := |old(Contents())| - 1; r == Ok(old(Contents())[n]) && Contents() == old(Contents())[..n]
    {
      if length == 0 {
        return Throws;
      }
      var c := PopCell();
      r := Ok(c.value);
    }

    /** `clear` destroys every object, husk or not, and gives the block back. */
    method Clear()
      requires Valid()
      modifies this`values, this`length, heap`blocks
      ensures Valid() && values.None? && Full() && Contents() == []
      ensures Reowned(old(heap.blocks), old(values), heap.blocks, None)
    {
      while length > 0
        invariant Valid()
        invariant values == old(values)
        invariant Elsewhere(old(heap.blocks), heap.blocks, Own(values))
      {
        var _ := PopCell();
      }
      if values.Some? {
        heap.Free(values.value);
      }
      length := 0;
      values := None;
    }

    method At(index: nat) returns (r: Outcome<T>)
      requires Valid() && Full()
      ensures r == if index < |Contents()| then Ok(Contents()[index]) else Throws
    {
      if length <= index {
        return Throws;
      }
      r := Ok(heap.blocks[values.value][index].value);
    }

    /** The first part of `resize`: shortening keeps the block. */
    method Shorten(count: nat)
      requires Valid() && Full() && count <= length
      modifies this`length, heap`blocks
      ensures Valid() && Full() && Contents() == old(Contents())[..count]
      ensures Reowned(old(heap.blocks), values, heap.blocks, values)
    {
      while count < length
        invariant Valid() && count <= length <= old(length)
        invariant Elsewhere(old(heap.blocks), heap.blocks, Own(values))
        invariant forall i | 0 <= i < length :: heap.blocks[values.value][i] == old(heap.blocks)[values.value][i]
      {
        var _ := PopCell();
      }
    }

    /** The loop of `resize` that moves the elements over to a new block. */
    method MoveOver(b: nat)
      requires Valid() && Full() && b in heap.blocks && Some(b) != values && length <= |heap.blocks[b]|
      requires heap.blocks[b] == Empty(|heap.blocks[b]|)
      modifies heap`blocks
      ensures Valid()
      ensures Elsewhere(old(heap.blocks), heap.blocks, Own(values) + {b})
      ensures b in heap.blocks && |heap.blocks[b]| == |old(heap.blocks)[b]|
      ensures forall i | 0 <= i < |heap.blocks[b]| ::
          heap.blocks[b][i] == if i < length then Object(old(Contents())[i]) else Nothing
    {
      var i := 0;
      ghost var was, n := Contents(), |heap.blocks[b]|;
      while i < length
        invariant 0 <= i <= length && Valid() && b in heap.blocks && |heap.blocks[b]| == n
        invariant Elsewhere(old(heap.blocks), heap.blocks, Own(values) + {b})
        invariant forall j | i <= j < length :: heap.blocks[values.value][j] == Object(was[j])
        invariant forall j | 0 <= j < n :: heap.blocks[b][j] == if j < i then Object(was[j]) else Nothing
      {
        var c := heap.MoveFrom(values.value, i);
        heap.Construct(b, i, c);
        i := i + 1;
      }
    }

    /** The loop of `resize` that copies the new element to all places but the first, which it is moved to at
        the end. */
    method FillUp(b: nat, from: nat, element: T)
      requires heap.Valid() && b in heap.blocks && from < |heap.blocks[b]|
      requires forall i | from <= i < |heap.blocks[b]| :: heap.blocks[b][i] == Nothing
      modifies heap`blocks
      ensures heap.Valid() && Elsewhere(old(heap.blocks), heap.blocks, {b})
      ensures b in heap.blocks && |heap.blocks[b]| == |old(heap.blocks)[b]|
      ensures forall i | 0 <= i < |heap.blocks[b]| ::
          heap.blocks[b][i] == if i < from then old(heap.blocks)[b][i] else Object(element)
    {
      ghost var n := |heap.blocks[b]|;
      var count := |heap.blocks[b]|;
      var i := from + 1;
      while i < count
        invariant from < i <= count
        invariant heap.Valid() && b in heap.blocks && |heap.blocks[b]| == n
        invariant Elsewhere(old(heap.blocks), heap.blocks, {b})
        invariant forall j | 0 <= j < n ::
            heap.blocks[b][j] == if from < j < i then Object(element) else old(heap.blocks)[b][j]
      {
        heap.Construct(b, i, Object(element));
        i := i + 1;
      }
      heap.Construct(b, from, Object(element));
    }

    /** `resize`; false is the exception "Too many items", which leaves everything as it was. */
    method Resize(count: nat, element: T) returns (ok: bool)
      requires Valid() && Full()
      modifies this`values, this`length, heap
      ensures Valid() && Full()
      ensures ok <==> count <= |old(Contents())| || count < TWO_32
      ensures Contents() == if ok then Resized(old(Contents()), count, element) else old(Contents())
      ensures !ok ==> heap.blocks == old(heap.blocks) && values == old(values)
      ensures Reowned(old(heap.blocks), old(values), heap.blocks, values)
    {
      if count <= length {
        Shorten(count);
        return true;
      }
      if count % TWO_32 != count {
        return false;
      }
      Grow(count, element);
      ok := true;
    }

    /** The part of `resize` that fills a longer block; the old one is left with husks. */
    method FillBlock(count: nat, element: T) returns (block: nat)
      requires Valid() && Full() && length < count < TWO_32
      modifies heap
      ensures Valid() && block !in old(heap.blocks) && block in heap.blocks
      ensures heap.blocks[block] == Objects(Resized(old(Contents()), count, element))
      ensures Elsewhere(old(heap.blocks), heap.blocks, Own(values) + {block})
    {
      block := heap.Allocate(count);
      MoveOver(block);
      FillUp(block, length, element);
      hide Elsewhere;
      assert heap.blocks[block] == Objects(Resized(old(Contents()), count, element));
    }

    /** The last part of `resize`: the longer block takes the place of the old one. */
    method Grow(count: nat, element: T)
      requires Valid() && Full() && length < count < TWO_32
      modifies this`values, this`length, heap
      ensures Valid() && Full() && Contents() == Resized(old(Contents()), count, element)
      ensures Reowned(old(heap.blocks), old(values), heap.blocks, values)
    {
      var block := FillBlock(count, element);
      Clear();
      values, length := Some(block), count;
    }

    method PushBack(obj: T) returns (ok: bool)
      requires Valid() && Full()
      modifies this`values, this`length, heap
      ensures Valid() && Full()
      ensures ok <==> |old(Contents())| + 1 < TWO_32
      ensures Contents() == if ok then old(Contents()) + [obj] else old(Contents())
      ensures !ok ==> heap.blocks == old(heap.blocks) && values == old(values)
      ensures Reowned(old(heap.blocks), old(values), heap.blocks, values)
    {
      ok := Resize(length + 1, obj);
    }

    /** `move_to_vector`. */
    method MoveToVector() returns (v: seq<T>)
      requires Valid() && Full()
      modifies this`values, this`length, heap`blocks
      ensures v == old(Contents())
      ensures Valid() && values.None? && Full() && Contents() == []
      ensures Reowned(old(heap.blocks), old(values), heap.blocks, None)
    {
      v := [];
      ghost var was := Contents();
      var i := 0;
      while i < length
        invariant 0 <= i <= length && Valid() && values == old(values) && length == old(length)
        invariant Elsewhere(old(heap.blocks), heap.blocks, Own(values))
        invariant forall j | i <= j < length :: heap.blocks[values.value][j] == Object(was[j])
        invariant v == was[..i]
      {
        var c := heap.MoveFrom(values.value, i);
        v := v + [c.value];
        i := i + 1;
      }
      Clear();
    }

    /** Move assignment: the old block goes back, the other array's block changes hands. Assigning an array
        to itself does nothing. */
    method AssignMove(obj: Array<T>)
      requires Valid() && Full() && obj.heap == heap && obj.Valid() && obj.Full()
      requires obj != this && obj.values.Some? ==> obj.values != values
      modifies this`values, this`length, obj`values, obj`length, heap`blocks
      ensures Valid() && Full() && Contents() == old(obj.Contents())
      ensures obj != this ==> obj.Valid() && obj.values.None? && obj.Full() && obj.Contents() == []
      ensures obj != this ==> values == old(obj.values) && length == old(obj.length)
      ensures obj != this ==> Reowned(old(heap.blocks), old(values), heap.blocks, None)
      ensures obj == this ==> values == old(values) && heap.blocks == old(heap.blocks)
    {
      if this != obj {
        Clear();
        values, length := obj.values, obj.length;
        obj.values, obj.length := None, 0;
      }
    }

    /** Copy assignment: a copy is made, moved in, and its empty shell destroyed. */
    method AssignCopy(obj: Array<T>)
      requires Valid() && Full() && obj.heap == heap && obj.Valid() && obj.Full()
      requires obj != this && obj.values.Some? ==> obj.values != values
      modifies this`values, this`length, heap
      ensures Valid() && Full() && Contents() == old(obj.Contents())
      ensures obj.Valid() && obj.Full() && obj.Contents() == old(obj.Contents())
      ensures Reowned(old(heap.blocks), old(values), heap.blocks, values)
    {
      if this != obj {
        var ok, copy := FromData(heap, obj.Contents());
        AssignMove(copy);
        copy.Clear();
      }
    }
  }

  /** `array(const T* data, size_t count)` and the constructors from a span or a vector; `ok` is false when
      "Too many items" is thrown before anything is allocated. */
  method FromData<T>(heap: Heap<T>, data: seq<T>) returns (ok: bool, a: Array<T>)
    requires heap.Valid()
    modifies heap
    ensures fresh(a) && a.heap == heap && a.Valid() && a.Full()
    ensures ok <==> |data| < TWO_32
    ensures a.Contents() == if ok then data else []
    ensures !ok ==> heap.blocks == old(heap.blocks)
    ensures Reowned(old(heap.blocks), None, heap.blocks, a.values)
  {
    a := new Array(heap);
    if |data| % TWO_32 != |data| {
      return false, a;
    }
    var b := heap.Allocate(|data|);
    var i := 0;
    while i < |data|
      invariant 0 <= i <= |data|
      invariant heap.Valid() && b in heap.blocks && |heap.blocks[b]| == |data|
      invariant Elsewhere(old(heap.blocks), heap.blocks, {b})
      invariant forall j | 0 <= j < |data| :: heap.blocks[b][j] == if j < i then Object(data[j]) else Nothing
    {
      heap.Construct(b, i, Object(data[i]));
      i := i + 1;
    }
    a.values, a.length := Some(b), |data|;
    ok := true;
  }

  /** Objects up to the length, nothing beyond. */
  ghost predicate Fits<T>(block: Block<T>, length: nat) {
    && length <= |block|
    && (forall i | 0 <= i < length :: block[i] != Nothing)
    && (forall i | length <= i < |block| :: block[i] == Nothing)
  }

  // ---- Many arrays over one memory ----

  datatype Handle = Handle(values: Option<nat>, length: nat)

  /** All the arrays of a program, by name, and the memory they share. */
  datatype Scene<T> = Scene(blocks: Blocks<T>, arrays: map<nat, Handle>)

  /** Every block has one owner, and holds objects just up to the length of that owner. */
  ghost predicate OneOwner<T>(s: Scene<T>) {
    && (forall n | n in s.arrays :: Backed(s.blocks, s.arrays[n]))
    && OwnersDiffer(s)
    && (forall b | b in s.blocks :: Owned(s, b))
  }

  ghost predicate OwnersDiffer<T>(s: Scene<T>) {
    forall m, n | m in s.arrays && n in s.arrays && m != n ::
      s.arrays[m].values.Some? ==> s.arrays[m].values != s.arrays[n].values
  }

  ghost predicate Owned<T>(s: Scene<T>, b: nat) {
    exists n :: n in s.arrays && s.arrays[n].values == Some(b)
  }

  ghost predicate Backed<T>(blocks: Blocks<T>, h: Handle) {
    match h.values
    case None => h.length == 0
    case Some(b) => b in blocks && Fits(blocks[b], h.length)
  }

  /** What can happen to the arrays of a program: one is declared; one goes through any operation on itself
      (its contract says how); one is moved into another; one is destroyed. */
  datatype Change = Declared(n: nat) | Operated(n: nat, h: Handle) | MovedInto(n: nat, from: nat) | Destroyed(n: nat)

  ghost predicate Leads<T>(s: Scene<T>, c: Change, t: Scene<T>) {
    match c
    case Declared(n) => n !in s.arrays && t == Scene(s.blocks, s.arrays[n := Handle(None, 0)])
    case Operated(n, h) =>
      && n in s.arrays && t.arrays == s.arrays[n := h]
      && Reowned(s.blocks, s.arrays[n].values, t.blocks, h.values) && Backed(t.blocks, h)
    case MovedInto(n, from) =>
      && n in s.arrays && from in s.arrays && n != from
      && t.arrays == s.arrays[n := s.arrays[from]][from := Handle(None, 0)]
      && Reowned(s.blocks, s.arrays[n].values, t.blocks, None)
    case Destroyed(n) =>
      n in s.arrays && t.arrays == s.arrays - {n} && Reowned(s.blocks, s.arrays[n].values, t.blocks, None)
  }

  // ---- The contracts of class Array yield such changes ----

  /** The array as a program's scene knows it. */
  ghost function HandleOf<T>(a: Array<T>): Handle
    reads a
  {
    Handle(a.values, a.length)
  }

  /** PopBack, Shorten, Resize, PushBack, Clear, MoveToVector and AssignCopy end with this contract. */
  twostate lemma OperationLeads<T>(a: Array<T>, s: Scene<T>, n: nat)
    requires a.Valid() && Reowned(old(a.heap.blocks), old(a.values), a.heap.blocks, a.values)
    requires s.blocks == old(a.heap.blocks) && n in s.arrays && s.arrays[n] == old(HandleOf(a))
    ensures Leads(s, Operated(n, HandleOf(a)), Scene(a.heap.blocks, s.arrays[n := HandleOf(a)]))
  {
  }

  /** The constructor of an empty array. */
  twostate lemma DeclarationLeads<T>(new a: Array<T>, s: Scene<T>, n: nat)
    requires a.Valid() && a.values.None? && a.heap.blocks == s.blocks && n !in s.arrays
    ensures Leads(s, Declared(n), Scene(a.heap.blocks, s.arrays[n := HandleOf(a)]))
  {
  }

  /** FromData declares an array and then gives it a block. */
  twostate lemma FromDataLeads<T>(new a: Array<T>, s: Scene<T>, n: nat) returns (mid: Scene<T>)
    requires a.Valid() && Reowned(s.blocks, None, a.heap.blocks, a.values) && n !in s.arrays
    ensures Leads(s, Declared(n), mid)
    ensures Leads(mid, Operated(n, HandleOf(a)), Scene(a.heap.blocks, s.arrays[n := HandleOf(a)]))
  {
    mid := Scene(s.blocks, s.arrays[n := Handle(None, 0)]);
    assert mid.arrays[n := HandleOf(a)] == s.arrays[n := HandleOf(a)];
  }

  /** AssignMove from another array. */
  twostate lemma MoveLeads<T>(a: Array<T>, obj: Array<T>, s: Scene<T>, n: nat, from: nat)
    requires obj != a && n != from && a.heap == obj.heap
    requires a.values == old(obj.values) && a.length == old(obj.length) && obj.values.None? && obj.length == 0
    requires Reowned(old(a.heap.blocks), old(a.values), a.heap.blocks, None)
    requires s.blocks == old(a.heap.blocks) && n in s.arrays && from in s.arrays
    requires s.arrays[n] == old(HandleOf(a)) && s.arrays[from] == old(HandleOf(obj))
    ensures Leads(s, MovedInto(n, from), Scene(a.heap.blocks, s.arrays[n := HandleOf(a)][from := HandleOf(obj)]))
  {
  }

  /** The destructor clears, and the array is gone. */
  twostate lemma DestructionLeads<T>(a: Array<T>, s: Scene<T>, n: nat)
    requires Reowned(old(a.heap.blocks), old(a.values), a.heap.blocks, None)
    requires s.blocks == old(a.heap.blocks) && n in s.arrays && s.arrays[n] == old(HandleOf(a))
    ensures Leads(s, Destroyed(n), Scene(a.heap.blocks, s.arrays - {n}))
  {
  }

  // ---- What holds in every program ----

  /** The arrays a change is about. */
  function About(c: Change): set<nat> {
    match c
    case MovedInto(n, from) => {n, from}
    case _ => {c.n}
  }

  /** A change leaves every other array, and all its elements, alone. */
  lemma OthersUntouched<T>(s: Scene<T>, c: Change, t: Scene<T>, k: nat)
    requires OneOwner(s) && Leads(s, c, t) && k in s.arrays && k !in About(c)
    ensures k in t.arrays && t.arrays[k] == s.arrays[k] && Backed(t.blocks, t.arrays[k])
    ensures s.arrays[k].values.Some? ==> t.blocks[s.arrays[k].values.value] == s.blocks[s.arrays[k].values.value]
  {
    assert Backed(s.blocks, s.arrays[k]);
    hide Fits;
  }

  /** What moves keeps its elements. */
  lemma MovedKeepsElements<T>(s: Scene<T>, n: nat, from: nat, t: Scene<T>)
    requires OneOwner(s) && Leads(s, MovedInto(n, from), t)
    ensures t.arrays[n] == s.arrays[from] && Backed(t.blocks, t.arrays[n])
    ensures s.arrays[from].values.Some? ==>
        t.blocks[s.arrays[from].values.value] == s.blocks[s.arrays[from].values.value]
  {
    assert Backed(s.blocks, s.arrays[from]);
    hide Fits;
  }

  lemma ChangeKeepsOneOwner<T>(s: Scene<T>, c: Change, t: Scene<T>)
    requires OneOwner(s) && Leads(s, c, t)
    ensures OneOwner(t)
  {
    match c {
      case Declared(n) => DeclaredKeeps(s, n, t);
      case Operated(n, h) => OperatedKeeps(s, n, h, t);
      case MovedInto(n, from) => MovedKeeps(s, n, from, t);
      case Destroyed(n) => DestroyedKeeps(s, n, t);
    }
    hide *;
  }

  lemma DeclaredKeeps<T>(s: Scene<T>, n: nat, t: Scene<T>)
    requires OneOwner(s) && Leads(s, Declared(n), t)
    ensures OneOwner(t)
  {
    hide Fits;
    forall b | b in t.blocks
      ensures Owned(t, b)
    {
      assert Owned(s, b);
      var m :| m in s.arrays && s.arrays[m].values == Some(b);
      assert t.arrays[m] == s.arrays[m];
    }
  }

  lemma DestroyedKeeps<T>(s: Scene<T>, n: nat, t: Scene<T>)
    requires OneOwner(s) && Leads(s, Destroyed(n), t)
    ensures OneOwner(t)
  {
    forall m | m in t.arrays
      ensures Backed(t.blocks, t.arrays[m])
    {
      OthersUntouched(s, Destroyed(n), t, m);
    }
    hide Backed;
    forall b | b in t.blocks
      ensures Owned(t, b)
    {
      assert Owned(s, b);
      var m :| m in s.arrays && s.arrays[m].values == Some(b);
      assert m in t.arrays;
    }
  }

  lemma OperatedKeeps<T>(s: Scene<T>, n: nat, h: Handle, t: Scene<T>)
    requires OneOwner(s) && Leads(s, Operated(n, h), t)
    ensures OneOwner(t)
  {
    forall m | m in t.arrays
      ensures Backed(t.blocks, t.arrays[m])
      ensures m != n && h.values.Some? ==> t.arrays[m].values != h.values
    {
      if m != n {
        OthersUntouched(s, Operated(n, h), t, m);
        assert Backed(s.blocks, s.arrays[m]);
      }
    }
    forall b | b in t.blocks
      ensures Owned(t, b)
    {
      OperatedOwned(s, n, h, t, b);
    }
    hide Reowned, Backed;
  }

  lemma OperatedOwned<T>(s: Scene<T>, n: nat, h: Handle, t: Scene<T>, b: nat)
    requires OneOwner(s) && Leads(s, Operated(n, h), t) && b in t.blocks
    ensures Owned(t, b)
  {
    if h.values == Some(b) {
      assert n in t.arrays;
    } else {
      assert b in s.blocks && Owned(s, b);
      hide OneOwner, Backed;
      var m :| m in s.arrays && s.arrays[m].values == Some(b);
      assert m in t.arrays && m != n;
    }
  }

  lemma MovedKeeps<T>(s: Scene<T>, n: nat, from: nat, t: Scene<T>)
    requires OneOwner(s) && Leads(s, MovedInto(n, from), t)
    ensures OneOwner(t)
  {
    hide OneOwner, Reowned, Backed, Leads;
    forall m | m in t.arrays
      ensures Backed(t.blocks, t.arrays[m])
    {
      MovedBacked(s, n, from, t, m);
    }
    forall b | b in t.blocks
      ensures Owned(t, b)
    {
      MovedOwned(s, n, from, t, b);
    }
    MovedDiffer(s, n, from, t);
    OneOwnerIs(t);
  }

  lemma OneOwnerIs<T>(t: Scene<T>)
    requires forall n | n in t.arrays :: Backed(t.blocks, t.arrays[n])
    requires OwnersDiffer(t) && forall b | b in t.blocks :: Owned(t, b)
    ensures OneOwner(t)
  {
    hide Backed, OwnersDiffer, Owned;
  }

  lemma MovedBacked<T>(s: Scene<T>, n: nat, from: nat, t: Scene<T>, m: nat)
    requires OneOwner(s) && Leads(s, MovedInto(n, from), t) && m in t.arrays
    ensures Backed(t.blocks, t.arrays[m])
  {
    if m == n {
      MovedKeepsElements(s, n, from, t);
    } else if m != from {
      OthersUntouched(s, MovedInto(n, from), t, m);
    }
    hide OneOwner, Reowned, Fits;
  }

  lemma MovedDiffer<T>(s: Scene<T>, n: nat, from: nat, t: Scene<T>)
    requires OneOwner(s) && Leads(s, MovedInto(n, from), t)
    ensures OwnersDiffer(t)
  {
    hide Backed, Owned, Reowned;
  }

  lemma MovedOwned<T>(s: Scene<T>, n: nat, from: nat, t: Scene<T>, b: nat)
    requires OneOwner(s) && Leads(s, MovedInto(n, from), t) && b in t.blocks
    ensures Owned(t, b)
  {
    assert b in s.blocks && Owned(s, b);
    hide OneOwner, Backed;
    var m :| m in s.arrays && s.arrays[m].values == Some(b);
    var k := if m == from then n else m;
    assert k in t.arrays && t.arrays[k].values == Some(b);
  }

  /** A program starts without arrays and without blocks, and each change leads to the next scene. */
  ghost predicate Program<T>(scenes: seq<Scene<T>>, changes: seq<Change>) {
    && |scenes| == |changes| + 1 && scenes[0] == Scene(map[], map[])
    && forall i | 0 <= i < |changes| :: Leads(scenes[i], changes[i], scenes[i + 1])
  }

  /** At every moment of every program, every block has one owner. */
  lemma {:induction false} ProgramHasOneOwners<T>(scenes: seq<Scene<T>>, changes: seq<Change>, i: nat)
    requires Program(scenes, changes) && i < |scenes|
    ensures OneOwner(scenes[i])
  {
    if i > 0 {
      ProgramHasOneOwners(scenes, changes, i - 1);
      ChangeKeepsOneOwner(scenes[i - 1], changes[i - 1], scenes[i]);
      hide OneOwner, Leads;
    }
  }

  /** When all arrays of a program are gone, so is all memory: each block was given back, and could be only
      after all its objects were destroyed. */
  lemma NothingLeaks<T>(scenes: seq<Scene<T>>, changes: seq<Change>)
    requires Program(scenes, changes) && scenes[|changes|].arrays == map[]
    ensures scenes[|changes|].blocks == map[]
  {
    ProgramHasOneOwners(scenes, changes, |changes|);
  }
}
