// translator/include/stack.h: a fixed-capacity stack over an array. `last`
// is the index of the top element, -1 when the stack is empty; the slots
// above it keep stale values that no operation looks at.

module BoundedStack {
  import opened Common

  /** The std::out_of_range exceptions of stack.h, one per message. */
  datatype StackError =
    | InvalidLength   // "Invalid length"
    | Empty           // "Stack is empty"
    | Overflow        // "Stack overflow"

  class Stack<T(0, ==)> {
    var data: array<T>
    var last: int

    ghost predicate Valid()
      reads this
    {
      -1 <= last < data.Length
    }

    /** The live elements, bottom first. */
    ghost function Contents(): seq<T>
      reads this, data
      requires Valid()
    {
      data[..last + 1]
    }

    function Capacity(): nat
      reads this
    {
      data.Length
    }

    /** Stack(n) for a positive n: n slots, none live. */
    constructor(n: int)
      requires n > 0
      ensures Valid() && fresh(data)
      ensures Capacity() == n && Contents() == []
    {
      data := new T[n];
      last := -1;
    }

    /** pop: the top element, which leaves the stack; the elements below it
        and the capacity are unchanged. */
    method Pop() returns (r: Result<T, StackError>)
      requires Valid()
      modifies this
      ensures Valid() && data == old(data)
      ensures old(Contents()) == [] ==> r == Err(Empty) && Contents() == old(Contents())
      ensures old(Contents()) != [] ==>
                r == Ok(old(Contents())[|old(Contents())| - 1]) &&
                Contents() == old(Contents())[..|old(Contents())| - 1]
    {
      if last < 0 {
        return Err(Empty);
      }
      var topElement := data[last];
      last := last - 1;
      r := Ok(topElement);
    }

    /** push: a new top element, unless every slot is live. */
    method Push(value: T) returns (r: Result<(), StackError>)
      requires Valid()
      modifies this, data
      ensures Valid() && data == old(data)
      ensures |old(Contents())| == Capacity() ==> r == Err(Overflow) && Contents() == old(Contents())
      ensures |old(Contents())| < Capacity() ==> r == Ok(()) && Contents() == old(Contents()) + [value]
    {
      if last >= data.Length - 1 {
        return Err(Overflow);
      }
      last := last + 1;
      data[last] := value;
      r := Ok(());
    }

    /** top: the element pop would return, or "Stack is empty". */
    function Top(): (r: Result<T, StackError>)
      reads this, data
      requires Valid()
      ensures r.Err? <==> Contents() == []
      ensures r.Err? ==> r.error == Empty
      ensures r.Ok? ==> r.value == Contents()[|Contents()| - 1]
    {
      if last < 0 then Err(Empty) else Ok(data[last])
    }

    /** size: the number of live elements, between 0 and the capacity. */
    function Size(): (n: int)
      reads this, data
      requires Valid()
      ensures n == |Contents()|
      ensures 0 <= n <= Capacity()
    {
      last + 1
    }

    /** empty: no live element. */
    function IsEmpty(): (b: bool)
      reads this, data
      requires Valid()
      ensures b <==> Contents() == []
      ensures b <==> Size() == 0
    {
      last < 0
    }

    /** operator==: the live elements agree; capacity and stale slots do not
        matter. */
    method Equals(other: Stack<T>) returns (eq: bool)
      requires Valid() && other.Valid()
      ensures eq <==> Contents() == other.Contents()
    {
      if last != other.last {
        return false;
      }
      var i := 0;
      while i <= last
        invariant 0 <= i <= last + 1
        invariant data[..i] == other.data[..i]
      {
        if data[i] != other.data[i] {
          assert Contents()[i] != other.Contents()[i];
          return false;
        }
        i := i + 1;
      }
      return true;
    }

    /** operator!=: the negation of operator==. */
    method NotEquals(other: Stack<T>) returns (ne: bool)
      requires Valid() && other.Valid()
      ensures ne <==> Contents() != other.Contents()
    {
      var eq := Equals(other);
      ne := !eq;
    }
  }

  /** The constructor: "Invalid length" for n <= 0, else an empty stack of
      capacity n. */
  method Create<T(0, ==)>(n: int) returns (r: Result<Stack<T>, StackError>)
    ensures r.Err? <==> n <= 0
    ensures r.Err? ==> r.error == InvalidLength
    ensures r.Ok? ==> fresh(r.value) && fresh(r.value.data) && r.value.Valid()
    ensures r.Ok? ==> r.value.Capacity() == n && r.value.Contents() == []
  {
    if n <= 0 {
      return Err(InvalidLength);
    }
    var s := new Stack<T>(n);
    r := Ok(s);
  }

  /** push(v) then pop() hands back v and restores the contents. */
  method PushThenPop<T(0, ==)>(s: Stack<T>, v: T) returns (r: Result<T, StackError>)
    requires s.Valid() && s.Size() < s.Capacity()
    modifies s, s.data
    ensures s.Valid() && s.Contents() == old(s.Contents())
    ensures r == Ok(v)
  {
    var pushed := s.Push(v);
    r := s.Pop();
  }

  // ---------------------------------------------------------------------
  // The scenarios of translator/test/test_stack.cpp, each run on fresh
  // stacks of int.

  /** Capacities 0 and -5 are refused; 10 is not. */
  method CreateScenario() returns (zero: Result<Stack<int>, StackError>, negative: Result<Stack<int>, StackError>,
                                   ten: Result<Stack<int>, StackError>)
    ensures zero == Err(InvalidLength) && negative == Err(InvalidLength) && ten.Ok?
  {
    zero := Create(0);
    negative := Create(-5);
    ten := Create(10);
  }

  /** Push 1, 3, 8 on a stack of capacity 4 and pop: equal to a stack of
      capacity 2 holding 1, 3. */
  method PushPopScenario() returns (eq: bool, popped: Result<int, StackError>)
    ensures eq && popped == Ok(8)
  {
    var s := new Stack<int>(4);
    var _ := s.Push(1);
    var _ := s.Push(3);
    var _ := s.Push(8);
    var expected := new Stack<int>(2);
    var _ := expected.Push(1);
    var _ := expected.Push(3);
    popped := s.Pop();
    eq := s.Equals(expected);
  }

  /** Pop and top on an empty stack fail; pushing a fifth element on a stack
      of capacity 4 fails; a single element can be popped. */
  method FailureScenario() returns (pop: Result<int, StackError>, top: Result<int, StackError>,
                                    fifth: Result<(), StackError>, only: Result<int, StackError>)
    ensures pop == Err(Empty) && top == Err(Empty) && fifth == Err(Overflow) && only == Ok(9)
  {
    var e := new Stack<int>(2);
    pop := e.Pop();
    top := e.Top();
    var s := new Stack<int>(4);
    var _ := s.Push(4);
    var _ := s.Push(2);
    var _ := s.Push(1);
    var _ := s.Push(3);
    fifth := s.Push(6);
    var one := new Stack<int>(1);
    var _ := one.Push(9);
    only := one.Pop();
  }

  /** Push 5, 6, 7 on a stack of capacity 4: pop returns 7. */
  method PopReturnsLastScenario() returns (popped: Result<int, StackError>)
    ensures popped == Ok(7)
  {
    var s := new Stack<int>(4);
    var _ := s.Push(5);
    var _ := s.Push(6);
    var _ := s.Push(7);
    popped := s.Pop();
  }

  /** top is the last pushed element; on an empty stack it fails. */
  method TopScenario() returns (top: Result<int, StackError>, none: Result<int, StackError>)
    ensures top == Ok(30) && none == Err(Empty)
  {
    var s := new Stack<int>(4);
    var _ := s.Push(10);
    var _ := s.Push(20);
    var _ := s.Push(30);
    top := s.Top();
    var e := new Stack<int>(4);
    none := e.Top();
  }

  /** size counts the pushes: 2 after pushing 1 and 2, 0 on a new stack. */
  method SizeScenario() returns (two: int, zero: int)
    ensures two == 2 && zero == 0
  {
    var s := new Stack<int>(4);
    var _ := s.Push(1);
    var _ := s.Push(2);
    two := s.Size();
    var e := new Stack<int>(4);
    zero := e.Size();
  }

  /** empty holds on a new stack and not after a push. */
  method EmptyScenario() returns (before: bool, after: bool)
    ensures before && !after
  {
    var s := new Stack<int>(4);
    before := s.IsEmpty();
    var _ := s.Push(5);
    after := s.IsEmpty();
  }
}
