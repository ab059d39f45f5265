/** `TDynamicVector<int>`: a fixed-length vector that owns its buffer.

    The object keeps the length `sz` and the buffer `mem`; the value it
    stands for is `Contents()`, the buffer read as a sequence. Operators that
    build a new vector return a fresh object with a fresh buffer, so the
    receiver and the operands are never changed by them. */
module Vector {
  import opened Errors
  import opened Algebra

  /** The largest length a vector may be created with. */
  const MaxVectorSize: nat := 100000000

  class DynamicVector {
    var sz: nat
    var mem: array<int>

    /** The buffer holds exactly `sz` elements. A moved-from vector has length 0. */
    ghost predicate Valid()
      reads this
    {
      mem.Length == sz && sz <= MaxVectorSize
    }

    ghost function Contents(): seq<int>
      reads this, mem
    {
      mem[..]
    }

    /** Allocation of `size` value-initialised elements (the body of the size
        constructor once its checks have passed). */
    constructor Init(size: nat)
      requires 1 <= size <= MaxVectorSize
      ensures Valid() && fresh(mem)
      ensures sz == size && Contents() == Zeros(size)
    {
      sz := size;
      mem := new int[size](_ => 0);
    }

    /** The size constructor: `OutOfRange` for a length of 0 or one above
        `MaxVectorSize`, otherwise `size` zeros. */
    static method Create(size: nat := 1) returns (r: Result<DynamicVector>)
      ensures r.Err? <==> size == 0 || size > MaxVectorSize
      ensures r.Err? ==> r.error == OutOfRange
      ensures r.Ok? ==> fresh(r.value) && fresh(r.value.mem) && r.value.Valid()
      ensures r.Ok? ==> r.value.sz == size && r.value.Contents() == Zeros(size)
    {
      if size == 0 {
        return Err(OutOfRange);
      }
      if size > MaxVectorSize {
        return Err(OutOfRange);
      }
      var v := new DynamicVector.Init(size);
      r := Ok(v);
    }

    /** Deep copy of the first `s` elements of a caller's buffer. */
    constructor FromArray(arr: array<int>, s: nat)
      requires 1 <= s <= MaxVectorSize && s <= arr.Length
      ensures Valid() && fresh(mem)
      ensures sz == s && Contents() == arr[..s]
    {
      var a := new int[s](_ => 0);
      var i := 0;
      while i < s
        invariant 0 <= i <= s
        invariant a[..i] == arr[..i]
      {
        a[i] := arr[i];
        i := i + 1;
      }
      sz := s;
      mem := a;
    }

    /** The buffer constructor: `InvalidArgument` for a null buffer, then the
        size checks of the size constructor, otherwise a deep copy. The
        caller's buffer must hold `s` elements whenever it is copied. */
    static method CreateFrom(arr: array?<int>, s: nat) returns (r: Result<DynamicVector>)
      requires arr != null && 1 <= s <= MaxVectorSize ==> s <= arr.Length
      ensures r.Err? <==> arr == null || s == 0 || s > MaxVectorSize
      ensures arr == null ==> r == Err(InvalidArgument)
      ensures arr != null && r.Err? ==> r.error == OutOfRange
      ensures r.Ok? ==> fresh(r.value) && fresh(r.value.mem) && r.value.Valid()
      ensures r.Ok? ==> arr != null && r.value.sz == s && r.value.Contents() == arr[..s]
    {
      if arr == null {
        return Err(InvalidArgument);
      }
      if s == 0 {
        return Err(OutOfRange);
      }
      if s > MaxVectorSize {
        return Err(OutOfRange);
      }
      var v := new DynamicVector.FromArray(arr, s);
      r := Ok(v);
    }

    /** The copy constructor: equal length, equal elements, its own buffer. */
    constructor Copy(v: DynamicVector)
      requires v.Valid()
      ensures Valid() && fresh(mem)
      ensures sz == v.sz && Contents() == v.Contents()
    {
      var a := new int[v.sz](_ => 0);
      var i := 0;
      while i < v.sz
        invariant 0 <= i <= v.sz
        invariant a[..i] == v.mem[..i]
      {
        a[i] := v.mem[i];
        i := i + 1;
      }
      sz := v.sz;
      mem := a;
    }

    /** The move constructor: takes over `v`'s buffer and leaves `v` empty. */
    constructor Move(v: DynamicVector)
      requires v.Valid()
      modifies v
      ensures Valid() && v.Valid()
      ensures sz == old(v.sz) && mem == old(v.mem) && Contents() == old(v.Contents())
      ensures v.sz == 0 && v.Contents() == []
    {
      sz := v.sz;
      mem := v.mem;
      new;
      v.mem := new int[0];
      v.sz := 0;
    }

    /** Copy assignment. The buffer is reallocated only when the lengths
        differ; assigning a vector to itself changes nothing. */
    method Assign(v: DynamicVector)
      requires Valid() && v.Valid()
      modifies this, mem
      ensures Valid()
      ensures sz == old(v.sz) && Contents() == old(v.Contents())
      ensures old(sz) == old(v.sz) ==> mem == old(mem)
      ensures old(sz) != old(v.sz) ==> fresh(mem)
      ensures v == this ==> Contents() == old(Contents())
      ensures v.sz == old(v.sz) && v.Contents() == old(v.Contents())
    {
      if sz != v.sz {
        var tmp := new int[v.sz](_ => 0);
        sz := v.sz;
        mem := tmp;
      }
      var i := 0;
      while i < sz
        invariant Valid() && v.Valid() && sz == v.sz
        invariant old(sz) == old(v.sz) ==> mem == old(mem)
        invariant old(sz) != old(v.sz) ==> fresh(mem)
        invariant v.mem == old(v.mem) && v.sz == old(v.sz)
        invariant 0 <= i <= sz
        invariant forall k :: 0 <= k < i ==> mem[k] == old(v.mem[k])
        invariant forall k :: i <= k < sz ==> v.mem[k] == old(v.mem[k])
      {
        mem[i] := v.mem[i];
        i := i + 1;
      }
    }

    /** Move assignment: the two vectors exchange their lengths and buffers. */
    method MoveAssign(v: DynamicVector)
      requires Valid() && v.Valid()
      modifies this, v
      ensures Valid() && v.Valid()
      ensures sz == old(v.sz) && mem == old(v.mem) && Contents() == old(v.Contents())
      ensures v.sz == old(sz) && v.mem == old(mem) && v.Contents() == old(Contents())
    {
      mem, v.mem := v.mem, mem;
      sz, v.sz := v.sz, sz;
    }

    /** `size()`: the number of elements. */
    function Size(): (n: nat)
      requires Valid()
      reads this, mem
      ensures n == |Contents()|
    {
      sz
    }

    /** Unchecked read; the caller guarantees the index is in range. */
    method Get(i: nat) returns (x: int)
      requires Valid() && i < sz
      ensures x == Contents()[i]
    {
      x := mem[i];
    }

    /** Unchecked write; the caller guarantees the index is in range. */
    method Set(i: nat, x: int)
      requires Valid() && i < sz
      modifies mem
      ensures Valid()
      ensures Contents() == old(Contents())[i := x]
    {
      mem[i] := x;
    }

    /** Checked read: `OutOfRange` exactly when `ind >= sz`. */
    method At(ind: nat) returns (r: Result<int>)
      requires Valid()
      ensures r.Err? <==> ind >= |Contents()|
      ensures r.Err? ==> r.error == OutOfRange
      ensures r.Ok? ==> r.value == Contents()[ind]
    {
      if ind >= sz {
        return Err(OutOfRange);
      }
      r := Ok(mem[ind]);
    }

    /** Checked write: `OutOfRange` exactly when `ind >= sz`, and then nothing
        changes; otherwise element `ind` and no other becomes `x`. */
    method SetAt(ind: nat, x: int) returns (r: Result<()>)
      requires Valid()
      modifies mem
      ensures Valid()
      ensures r.Err? <==> ind >= sz
      ensures r.Err? ==> r.error == OutOfRange && Contents() == old(Contents())
      ensures r.Ok? ==> Contents() == old(Contents())[ind := x]
    {
      if ind >= sz {
        return Err(OutOfRange);
      }
      mem[ind] := x;
      r := Ok(());
    }

    /** `operator==`: false on different lengths, otherwise true exactly when
        every pair of corresponding elements is equal. */
    method Equals(v: DynamicVector) returns (b: bool)
      requires Valid() && v.Valid()
      ensures b <==> Contents() == v.Contents()
    {
      if sz != v.sz {
        assert |Contents()| != |v.Contents()|;
        return false;
      }
      var i := 0;
      while i < sz
        invariant 0 <= i <= sz
        invariant mem[..i] == v.mem[..i]
      {
        if mem[i] != v.mem[i] {
          assert Contents()[i] != v.Contents()[i];
          return false;
        }
        i := i + 1;
      }
      assert mem[..] == mem[..sz];
      assert v.mem[..] == v.mem[..sz];
      b := true;
    }

    /** `operator!=`: the negation of `Equals`. */
    method NotEquals(v: DynamicVector) returns (b: bool)
      requires Valid() && v.Valid()
      ensures b <==> Contents() != v.Contents()
    {
      var e := Equals(v);
      b := !e;
    }

    /** `v + c`: a new vector with `c` added to every element. */
    method PlusScalar(c: int) returns (res: DynamicVector)
      requires Valid()
      ensures fresh(res) && fresh(res.mem) && res.Valid()
      ensures res.Contents() == AddScalar(Contents(), c)
    {
      res := new DynamicVector.Copy(this);
      var i := 0;
      while i < sz
        invariant 0 <= i <= sz
        invariant fresh(res) && fresh(res.mem) && res.Valid() && res.sz == sz
        invariant forall k :: 0 <= k < i ==> res.mem[k] == mem[k] + c
        invariant forall k :: i <= k < sz ==> res.mem[k] == mem[k]
      {
        res.mem[i] := res.mem[i] + c;
        i := i + 1;
      }
    }

    /** `v - c`: a new vector with `c` subtracted from every element. */
    method MinusScalar(c: int) returns (res: DynamicVector)
      requires Valid()
      ensures fresh(res) && fresh(res.mem) && res.Valid()
      ensures res.Contents() == SubScalar(Contents(), c)
    {
      res := new DynamicVector.Copy(this);
      var i := 0;
      while i < sz
        invariant 0 <= i <= sz
        invariant fresh(res) && fresh(res.mem) && res.Valid() && res.sz == sz
        invariant forall k :: 0 <= k < i ==> res.mem[k] == mem[k] - c
        invariant forall k :: i <= k < sz ==> res.mem[k] == mem[k]
      {
        res.mem[i] := res.mem[i] - c;
        i := i + 1;
      }
    }

    /** `v * c`: a new vector with every element multiplied by `c`. */
    method TimesScalar(c: int) returns (res: DynamicVector)
      requires Valid()
      ensures fresh(res) && fresh(res.mem) && res.Valid()
      ensures res.Contents() == MulScalar(Contents(), c)
    {
      res := new DynamicVector.Copy(this);
      var i := 0;
      while i < sz
        invariant 0 <= i <= sz
        invariant fresh(res) && fresh(res.mem) && res.Valid() && res.sz == sz
        invariant forall k :: 0 <= k < i ==> res.mem[k] == mem[k] * c
        invariant forall k :: i <= k < sz ==> res.mem[k] == mem[k]
      {
        res.mem[i] := res.mem[i] * c;
        i := i + 1;
      }
    }

    /** `v + w`: `LogicError` when the lengths differ, otherwise the
        elementwise sum. */
    method Plus(v: DynamicVector) returns (r: Result<DynamicVector>)
      requires Valid() && v.Valid()
      ensures r.Err? <==> sz != v.sz
      ensures r.Err? ==> r.error == LogicError
      ensures r.Ok? ==> fresh(r.value) && fresh(r.value.mem) && r.value.Valid()
      ensures r.Ok? ==> r.value.Contents() == Add(Contents(), v.Contents())
    {
      if sz != v.sz {
        return Err(LogicError);
      }
      var res := new DynamicVector.Copy(this);
      var i := 0;
      while i < sz
        invariant 0 <= i <= sz
        invariant fresh(res) && fresh(res.mem) && res.Valid() && res.sz == sz
        invariant forall k :: 0 <= k < i ==> res.mem[k] == mem[k] + v.mem[k]
        invariant forall k :: i <= k < sz ==> res.mem[k] == mem[k]
      {
        res.mem[i] := res.mem[i] + v.mem[i];
        i := i + 1;
      }
      r := Ok(res);
    }

    /** `v - w`: `LogicError` when the lengths differ, otherwise the
        elementwise difference. */
    method Minus(v: DynamicVector) returns (r: Result<DynamicVector>)
      requires Valid() && v.Valid()
      ensures r.Err? <==> sz != v.sz
      ensures r.Err? ==> r.error == LogicError
      ensures r.Ok? ==> fresh(r.value) && fresh(r.value.mem) && r.value.Valid()
      ensures r.Ok? ==> r.value.Contents() == Sub(Contents(), v.Contents())
    {
      if sz != v.sz {
        return Err(LogicError);
      }
      var res := new DynamicVector.Copy(this);
      var i := 0;
      while i < sz
        invariant 0 <= i <= sz
        invariant fresh(res) && fresh(res.mem) && res.Valid() && res.sz == sz
        invariant forall k :: 0 <= k < i ==> res.mem[k] == mem[k] - v.mem[k]
        invariant forall k :: i <= k < sz ==> res.mem[k] == mem[k]
      {
        res.mem[i] := res.mem[i] - v.mem[i];
        i := i + 1;
      }
      r := Ok(res);
    }

    /** `v * w`: `LogicError` when the lengths differ, otherwise the dot
        product accumulated from zero. */
    method DotProduct(v: DynamicVector) returns (r: Result<int>)
      requires Valid() && v.Valid()
      ensures r.Err? <==> |Contents()| != |v.Contents()|
      ensures r.Err? ==> r.error == LogicError
      ensures r.Ok? ==> r.value == Dot(Contents(), v.Contents())
    {
      if sz != v.sz {
        return Err(LogicError);
      }
      var res := 0;
      var i := 0;
      while i < sz
        invariant 0 <= i <= sz
        invariant res == Dot(mem[..i], v.mem[..i])
      {
        DotStep(mem[..], v.mem[..], i);
        assert mem[..][..i + 1] == mem[..i + 1] && v.mem[..][..i + 1] == v.mem[..i + 1];
        res := res + mem[i] * v.mem[i];
        i := i + 1;
      }
      assert mem[..] == mem[..sz] && v.mem[..] == v.mem[..sz];
      r := Ok(res);
    }
  }
}
