/*
 * The set-expression evaluator of B/main.c. Operands live on one int stack,
 * each encoded as its elements followed by a size marker; an operator pops
 * the two topmost operands and pushes its result in the same encoding.
 * `U` is union, `\` difference and `^` intersection.
 */
module SetExpression {
  import opened GrowableStack

  // ---------------------------------------------------------------------------
  // Character classes

  /** The characters an expression may contain. */
  const ValidSymbols: string := "0123456789-,U()[]^\\"

  predicate IsDigit(ch: char) { '0' <= ch <= '9' }

  /** IsValidSymbol: a linear scan over the table of valid characters. */
  method IsValidSymbol(ch: char) returns (b: bool)
    ensures b <==> ch in ValidSymbols
    ensures b <==> IsDigit(ch) || IsOperator(ch) || ch in "-,()[]"
  {
    var i := 0;
    while i < |ValidSymbols|
      invariant 0 <= i <= |ValidSymbols|
      invariant ch !in ValidSymbols[..i]
    {
      if ch == ValidSymbols[i] {
        return true;
      }
      i := i + 1;
    }
    return false;
  }

  /** IsOperator: union, intersection and difference. */
  predicate IsOperator(op: char)
    ensures IsOperator(op) ==> op in ValidSymbols
  {
    op == 'U' || op == '^' || op == '\\'
  }

  /** Priority: intersection binds tighter than union and difference; every
      other character ranks below all operators. */
  function Priority(op: char): (p: int)
    ensures p == -1 || p == 1 || p == 2
  {
    if op == 'U' || op == '\\' then 1 else if op == '^' then 2 else -1
  }

  /** Exactly the operators have a positive priority, and only intersection
      outranks the others. */
  lemma PriorityRanksOperators(c: char)
    ensures IsOperator(c) <==> Priority(c) > 0
    ensures Priority(c) == 2 <==> c == '^'
    ensures IsOperator(c) ==> c in ValidSymbols
  {
  }

  // ---------------------------------------------------------------------------
  // The operand encoding

  /** The stack holding the operands `sets`, bottom first: each operand's
      elements followed by its size. */
  function Encode(sets: seq<seq<int>>): (s: seq<int>)
    ensures |s| >= |sets|
  {
    if sets == [] then []
    else
      var last := sets[|sets| - 1];
      Encode(sets[..|sets| - 1]) + last + [|last|]
  }

  /** The top of the stack is a size marker that fits below it. */
  predicate Framed(s: seq<int>) {
    |s| > 0 && 0 <= s[|s| - 1] < |s|
  }

  /** The stack below the topmost operand. */
  function Below(s: seq<int>): (r: seq<int>)
    requires Framed(s)
    ensures |r| < |s| && r == s[..|r|]
  {
    s[..|s| - 1 - s[|s| - 1]]
  }

  /** The elements of the topmost operand, bottom first. */
  function TopOperand(s: seq<int>): (e: seq<int>)
    requires Framed(s)
    ensures |e| == s[|s| - 1] && Below(s) + e + [|e|] == s
  {
    s[|s| - 1 - s[|s| - 1]..|s| - 1]
  }

  /** Two operands can be taken off the stack. */
  predicate TwoOperands(s: seq<int>) {
    Framed(s) && Framed(Below(s))
  }

  /** Decoding inverts the encoding: the topmost operand comes back whole. */
  lemma DecodeEncode(sets: seq<seq<int>>)
    requires sets != []
    ensures Framed(Encode(sets))
    ensures TopOperand(Encode(sets)) == sets[|sets| - 1]
    ensures Below(Encode(sets)) == Encode(sets[..|sets| - 1])
  {
  }

  function Reverse(s: seq<int>): (r: seq<int>)
    ensures |r| == |s|
    ensures forall i :: 0 <= i < |s| ==> r[i] == s[|s| - 1 - i]
  {
    if s == [] then [] else Reverse(s[1..]) + [s[0]]
  }

  // ---------------------------------------------------------------------------
  // Moving and scanning operands

  /** GetSet: pop the size marker, then move that many elements onto `buffer`,
      which receives them in reverse order. */
  method GetSet(stack: Stack<int>, buffer: Stack<int>)
    requires stack.Valid() && buffer.Valid() && Framed(stack.Contents())
    requires stack != buffer && stack.base != buffer.base
    modifies stack, buffer, buffer.base
    ensures stack.Valid() && buffer.Valid()
    ensures stack.Contents() == Below(old(stack.Contents()))
    ensures buffer.Contents() == old(buffer.Contents()) + Reverse(TopOperand(old(stack.Contents())))
    ensures stack.base == old(stack.base)
    ensures buffer.base == old(buffer.base) || fresh(buffer.base)
  {
    ghost var s := stack.Contents();
    ghost var b0 := buffer.Contents();
    ghost var n := |s| - 1;
    var size := stack.Pop();
    var i := 0;
    while i < size
      invariant 0 <= i <= size <= n
      invariant stack.Valid() && buffer.Valid()
      invariant stack != buffer && stack.base == old(stack.base)
      invariant buffer.base == old(buffer.base) || fresh(buffer.base)
      invariant stack.Contents() == s[..n - i]
      invariant buffer.Contents() == b0 + Reverse(s[n - i..n])
    {
      var v := stack.Pop();
      ghost var moved := s[n - i - 1..n];
      assert moved[1..] == s[n - i..n] && moved[0] == v;
      assert Reverse(moved) == Reverse(s[n - i..n]) + [v];
      buffer.Push(v);
      assert buffer.Contents() == b0 + Reverse(s[n - i..n]) + [v];
      i := i + 1;
    }
  }

  /** Count: how often `element` occurs among the live entries. */
  method Count(st: Stack<int>, element: int) returns (count: nat)
    requires st.Valid()
    ensures count == multiset(st.Contents())[element]
  {
    count := 0;
    var i := 0;
    while i < st.Size()
      invariant 0 <= i <= st.containerSize
      invariant count == multiset(st.Contents()[..i])[element]
    {
      assert st.Contents()[..i + 1] == st.Contents()[..i] + [st.base[i]];
      if st.base[i] == element {
        count := count + 1;
      }
      i := i + 1;
    }
    assert st.Contents()[..i] == st.Contents();
  }

  /** IsIn: whether `element` is among the live entries, which is exactly when
      Count finds it at least once. */
  method IsIn(element: int, st: Stack<int>) returns (b: bool)
    requires st.Valid()
    ensures b <==> element in st.Contents()
    ensures b <==> multiset(st.Contents())[element] > 0
  {
    var i := 0;
    while i < st.Size()
      invariant 0 <= i <= st.containerSize
      invariant element !in st.Contents()[..i]
    {
      if element == st.base[i] {
        return true;
      }
      i := i + 1;
    }
    assert st.Contents()[..i] == st.Contents();
    return false;
  }

  /** Push every live element of `from` onto `target`, in order. */
  method PushAll(target: Stack<int>, from: Stack<int>)
    requires target.Valid() && from.Valid()
    requires target != from && target.base != from.base
    modifies target, target.base
    ensures target.Valid()
    ensures target.Contents() == old(target.Contents()) + from.Contents()
    ensures target.base == old(target.base) || fresh(target.base)
  {
    ghost var t0 := target.Contents();
    var i := 0;
    while i < from.Size()
      invariant 0 <= i <= from.containerSize
      invariant target.Valid()
      invariant target.base == old(target.base) || fresh(target.base)
      invariant target.Contents() == t0 + from.Contents()[..i]
    {
      assert from.Contents()[..i + 1] == from.Contents()[..i] + [from.base[i]];
      target.Push(from.base[i]);
      i := i + 1;
    }
    assert from.Contents()[..i] == from.Contents();
  }

  // ---------------------------------------------------------------------------
  // The three set operations on element sequences

  function Elems(s: seq<int>): set<int> {
    set x | x in s
  }

  predicate NoDuplicates(s: seq<int>) {
    forall i, j :: 0 <= i < j < |s| ==> s[i] != s[j]
  }

  /** The union loop: each element of `r`, in order, is appended unless the
      growing result already holds it. */
  function AddMissing(acc: seq<int>, r: seq<int>): (u: seq<int>)
    ensures |acc| <= |u| <= |acc| + |r|
    ensures u[..|acc|] == acc
  {
    if r == [] then acc
    else
      var a := AddMissing(acc, r[..|r| - 1]);
      var x := r[|r| - 1];
      if x in a then a else a + [x]
  }

  /** The difference loop: the elements of `l`, in order and with their
      repetitions, that do not occur in `r`. */
  function Difference(l: seq<int>, r: seq<int>): (d: seq<int>)
    ensures |d| <= |l|
  {
    if l == [] then []
    else
      var a := Difference(l[..|l| - 1], r);
      var x := l[|l| - 1];
      if x in r then a else a + [x]
  }

  /** The intersection loop: the elements of `l`, in order, that occur in `r`
      and are not yet in the result. */
  function Intersection(l: seq<int>, r: seq<int>): (i: seq<int>)
    ensures |i| <= |l|
  {
    if l == [] then []
    else
      var a := Intersection(l[..|l| - 1], r);
      var x := l[|l| - 1];
      if x in r && x !in a then a + [x] else a
  }

  /** Union keeps all of the left operand and adds each element of the right
      one that was missing, once; the result holds the elements of both. */
  lemma {:induction false} UnionContents(acc: seq<int>, r: seq<int>)
    ensures Elems(AddMissing(acc, r)) == Elems(acc) + Elems(r)
    ensures NoDuplicates(acc) ==> NoDuplicates(AddMissing(acc, r))
    ensures NoDuplicates(AddMissing(acc, r)[|acc|..])
    ensures forall i :: |acc| <= i < |AddMissing(acc, r)| ==>
              AddMissing(acc, r)[i] in r && AddMissing(acc, r)[i] !in acc
  {
    if r != [] {
      var p := r[..|r| - 1];
      UnionContents(acc, p);
      var a := AddMissing(acc, p);
      var x := r[|r| - 1];
      assert r == p + [x];
      assert Elems(r) == Elems(p) + {x};
      if x !in a {
        assert Elems(a + [x]) == Elems(a) + {x};
        assert (a + [x])[|acc|..] == a[|acc|..] + [x];
        assert x !in a[|acc|..];
      }
    }
  }

  /** Difference keeps exactly the elements of the left operand that are not
      in the right one, each as often as it occurred. */
  lemma {:induction false} DifferenceContents(l: seq<int>, r: seq<int>)
    ensures forall x :: multiset(Difference(l, r))[x] == if x in r then 0 else multiset(l)[x]
    ensures Elems(Difference(l, r)) == Elems(l) - Elems(r)
  {
    if l != [] {
      var p := l[..|l| - 1];
      DifferenceContents(p, r);
      assert l == p + [l[|l| - 1]];
    }
    var d := Difference(l, r);
    forall x | true ensures x in d <==> x in l && x !in r {
      assert x in d <==> multiset(d)[x] > 0;
      assert x in l <==> multiset(l)[x] > 0;
    }
  }

  /** Intersection yields each element common to both operands exactly once. */
  lemma {:induction false} IntersectionContents(l: seq<int>, r: seq<int>)
    ensures Elems(Intersection(l, r)) == Elems(l) * Elems(r)
    ensures NoDuplicates(Intersection(l, r))
  {
    if l != [] {
      var p := l[..|l| - 1];
      IntersectionContents(p, r);
      var x := l[|l| - 1];
      assert l == p + [x];
      assert Elems(l) == Elems(p) + {x};
      var a := Intersection(p, r);
      if x in r && x !in a {
        assert Elems(a + [x]) == Elems(a) + {x};
      }
    }
  }

  // ---------------------------------------------------------------------------
  // One operator step on the whole stack

  /** The result of applying `op` to the operands `left` and `right` as they
      were stored; GetSet hands each of them over reversed. */
  function Combine(op: char, left: seq<int>, right: seq<int>): seq<int>
    requires IsOperator(op)
  {
    var l, r := Reverse(left), Reverse(right);
    if op == 'U' then AddMissing(l, r)
    else if op == '\\' then Difference(l, r)
    else Intersection(l, r)
  }

  /** ProcessOperation as written: the difference case pushes the size of the
      whole stack as its marker, not the size of its result. */
  function StepAsWritten(s: seq<int>, op: char): (r: seq<int>)
    requires TwoOperands(s)
    ensures op != '\\' ==> r == Step(s, op)
    ensures |Below(Below(s))| <= |r| && r[..|Below(Below(s))|] == Below(Below(s))
  {
    var right, rest := TopOperand(s), Below(s);
    var left, below := TopOperand(rest), Below(rest);
    if !IsOperator(op) then below
    else
      var c := Combine(op, left, right);
      if op == '\\' then below + c + [|below| + |c|] else below + c + [|c|]
  }

  /** ProcessOperation as evidently intended: every operator pushes its result
      followed by the result's size. Any other character drops both operands,
      as the source's switch has no case for it. */
  function Step(s: seq<int>, op: char): (r: seq<int>)
    requires TwoOperands(s)
    ensures |Below(Below(s))| <= |r| && r[..|Below(Below(s))|] == Below(Below(s))
    ensures IsOperator(op) ==> Framed(r) && Below(r) == Below(Below(s))
    ensures !IsOperator(op) ==> r == Below(Below(s))
  {
    var right, rest := TopOperand(s), Below(s);
    var left, below := TopOperand(rest), Below(rest);
    if !IsOperator(op) then below
    else
      var c := Combine(op, left, right);
      below + c + [|c|]
  }

  /** A step replaces the two topmost operands by the operator's result and
      keeps the encoding, so the next operator finds its operands. */
  lemma StepKeepsEncoding(pre: seq<seq<int>>, a: seq<int>, b: seq<int>, op: char)
    ensures TwoOperands(Encode(pre + [a, b]))
    ensures IsOperator(op) ==> Step(Encode(pre + [a, b]), op) == Encode(pre + [Combine(op, a, b)])
    ensures !IsOperator(op) ==> Step(Encode(pre + [a, b]), op) == Encode(pre)
  {
    var sets := pre + [a, b];
    DecodeEncode(sets);
    assert sets[..|sets| - 1] == pre + [a];
    DecodeEncode(pre + [a]);
    assert (pre + [a])[..|pre|] == pre;
    if IsOperator(op) {
      var c := Combine(op, a, b);
      assert (pre + [c])[..|pre|] == pre;
    }
  }

  /** The operator results, read as sets, are union, difference and
      intersection of the operands. */
  lemma CombineMeaning(op: char, a: seq<int>, b: seq<int>)
    requires IsOperator(op)
    ensures op == 'U' ==> Elems(Combine(op, a, b)) == Elems(a) + Elems(b)
    ensures op == '\\' ==> Elems(Combine(op, a, b)) == Elems(a) - Elems(b)
    ensures op == '^' ==> Elems(Combine(op, a, b)) == Elems(a) * Elems(b)
    ensures op == '^' ==> NoDuplicates(Combine(op, a, b))
  {
    var l, r := Reverse(a), Reverse(b);
    assert Elems(l) == Elems(a) by {
      forall x | x in a ensures x in l {
        var i :| 0 <= i < |a| && a[i] == x;
        assert l[|a| - 1 - i] == x;
      }
    }
    assert Elems(r) == Elems(b) by {
      forall x | x in b ensures x in r {
        var i :| 0 <= i < |b| && b[i] == x;
        assert r[|b| - 1 - i] == x;
      }
    }
    UnionContents(l, r);
    DifferenceContents(l, r);
    IntersectionContents(l, r);
  }

  /** Without operands below the two, the marker as written is right. */
  lemma AsWrittenWithoutPrefix(a: seq<int>, b: seq<int>, op: char)
    ensures TwoOperands(Encode([a, b]))
    ensures StepAsWritten(Encode([a, b]), op) == Step(Encode([a, b]), op)
  {
    var s := Encode([a, b]);
    DecodeEncode([a, b]);
    assert [a, b][..1] == [a];
    DecodeEncode([a]);
    assert [a][..0] == [];
    var below := Below(Below(s));
    assert below == [];
    if op == '\\' {
      var c := Combine(op, TopOperand(Below(s)), TopOperand(s));
      assert StepAsWritten(s, op) == below + c + [|below| + |c|];
      assert Step(s, op) == below + c + [|c|];
    }
  }

  /** With any operand below the two, the difference marker as written counts
      the operands below as well, so the stack no longer encodes the result. */
  lemma AsWrittenDifferenceMarker(pre: seq<seq<int>>, a: seq<int>, b: seq<int>)
    requires pre != []
    ensures TwoOperands(Encode(pre + [a, b]))
    ensures StepAsWritten(Encode(pre + [a, b]), '\\') != Encode(pre + [Combine('\\', a, b)])
  {
    StepKeepsEncoding(pre, a, b, '\\');
    var s := Encode(pre + [a, b]);
    var c := Combine('\\', a, b);
    DecodeEncode(pre);
    assert |Below(Below(s))| == |Encode(pre)| > 0;
    var w := StepAsWritten(s, '\\');
    var e := Encode(pre + [c]);
    assert w[|w| - 1] == |Encode(pre)| + |c|;
    DecodeEncode(pre + [c]);
    assert e[|e| - 1] == |c|;
  }

  /** The expression [5]U([1,2]\[2]): the difference step as written leaves
      the marker 3 instead of 1, and the union after it then finds a single
      operand only, where the intended step leaves [5] and [1] on the stack. */
  lemma DifferenceMarkerExample()
    ensures TwoOperands([5, 1, 1, 2, 2, 2, 1])
    ensures StepAsWritten([5, 1, 1, 2, 2, 2, 1], '\\') == [5, 1, 1, 3]
    ensures !TwoOperands([5, 1, 1, 3])
    ensures Step([5, 1, 1, 2, 2, 2, 1], '\\') == [5, 1, 1, 1] == Encode([[5], [1]])
  {
    ExampleOperands();
    ExampleDifference();
    ExampleAsWritten();
    ExampleStuck();
    ExampleIntended();
    ExampleEncoding();
  }

  lemma ExampleAsWritten()
    ensures StepAsWritten([5, 1, 1, 2, 2, 2, 1], '\\') == [5, 1, 1, 3]
  {
    ExampleOperands();
    ExampleDifference();
  }

  /** The marker 3 swallows everything below it. */
  lemma ExampleStuck()
    ensures !TwoOperands([5, 1, 1, 3])
  {
    assert Below([5, 1, 1, 3]) == [];
  }

  lemma ExampleIntended()
    ensures Step([5, 1, 1, 2, 2, 2, 1], '\\') == [5, 1, 1, 1]
  {
    ExampleOperands();
    ExampleDifference();
  }

  lemma ExampleEncoding()
    ensures Encode([[5], [1]]) == [5, 1, 1, 1]
  {
    assert [[5], [1]][..1] == [[5]];
    assert [[5]][..0] == [];
  }

  /** How the stack of [5]U([1,2]\[2]) splits into its operands. */
  lemma ExampleOperands()
    ensures TwoOperands([5, 1, 1, 2, 2, 2, 1])
    ensures TopOperand([5, 1, 1, 2, 2, 2, 1]) == [2]
    ensures Below([5, 1, 1, 2, 2, 2, 1]) == [5, 1, 1, 2, 2]
    ensures TopOperand([5, 1, 1, 2, 2]) == [1, 2] && Below([5, 1, 1, 2, 2]) == [5, 1]
  {
  }

  /** [1,2]\[2] is [1]. */
  lemma ExampleDifference()
    ensures Combine('\\', [1, 2], [2]) == [1]
  {
    DropShared(1, 2);
  }

  /** [x,y]\[y] is [x] when x and y differ. */
  lemma DropShared(x: int, y: int)
    requires x != y
    ensures Combine('\\', [x, y], [y]) == [x]
  {
    assert Reverse([x, y]) == [y, x] && Reverse([y]) == [y];
    assert [y, x][..1] == [y];
    assert [y][..0] == [];
    assert Difference([y], [y]) == [];
    assert Difference([y, x], [y]) == [x];
  }

  // ---------------------------------------------------------------------------
  // ProcessOperation

  /** ProcessOperation: take the right operand, then the left one, off the
      stack and push the operator's result with its size. The difference case
      pushes the size of its own result (see StepAsWritten for the marker the
      source pushes). */
  method ProcessOperation(stack: Stack<int>, op: char)
    requires stack.Valid() && TwoOperands(stack.Contents())
    modifies stack, stack.base
    ensures stack.Valid() && stack.Contents() == Step(old(stack.Contents()), op)
  {
    ghost var s := stack.Contents();
    var left, right := TakeOperands(stack);
    ghost var below := stack.Contents();
    ghost var a, b := TopOperand(Below(s)), TopOperand(s);
    if op == 'U' {
      ghost var c := AddMissing(Reverse(a), Reverse(b));
      UnionCase(stack, left, right);
      assert stack.Contents() == below + c + [|c|];
    } else if op == '\\' {
      ghost var c := Difference(Reverse(a), Reverse(b));
      DifferenceCase(stack, left, right);
      assert stack.Contents() == below + c + [|c|];
    } else if op == '^' {
      ghost var c := Intersection(Reverse(a), Reverse(b));
      IntersectionCase(stack, left, right);
      assert stack.Contents() == below + c + [|c|];
    }
  }

  /** The two GetSet calls that open ProcessOperation: the right operand is
      taken first, then the left one, each into a stack of its own. */
  method TakeOperands(stack: Stack<int>) returns (left: Stack<int>, right: Stack<int>)
    requires stack.Valid() && TwoOperands(stack.Contents())
    modifies stack
    ensures fresh(left) && fresh(right) && fresh(left.base) && fresh(right.base)
    ensures left != right && left.base != right.base
    ensures stack.Valid() && left.Valid() && right.Valid()
    ensures stack.base == old(stack.base)
    ensures stack.Contents() == Below(Below(old(stack.Contents())))
    ensures left.Contents() == Reverse(TopOperand(Below(old(stack.Contents()))))
    ensures right.Contents() == Reverse(TopOperand(old(stack.Contents())))
  {
    right := new Stack<int>();
    left := new Stack<int>();
    GetSet(stack, right);
    GetSet(stack, left);
  }

  /** The `U` case: extend the left operand by the missing right elements and
      push it with its size. */
  method UnionCase(stack: Stack<int>, left: Stack<int>, right: Stack<int>)
    requires stack.Valid() && left.Valid() && right.Valid()
    requires stack != left && stack != right && left != right
    requires stack.base != left.base && stack.base != right.base && left.base != right.base
    modifies stack, stack.base, left, left.base
    ensures stack.Valid()
    ensures var c := AddMissing(old(left.Contents()), right.Contents());
            stack.Contents() == old(stack.Contents()) + c + [|c|]
  {
    UnionInto(left, right);
    PushAll(stack, left);
    stack.Push(left.Size());
  }

  /** The `\\` case: push the left elements the right operand lacks, then the
      number of elements pushed. */
  method DifferenceCase(stack: Stack<int>, left: Stack<int>, right: Stack<int>)
    requires stack.Valid() && left.Valid() && right.Valid()
    requires stack != left && stack != right
    requires stack.base != left.base && stack.base != right.base
    modifies stack, stack.base
    ensures stack.Valid()
    ensures var c := Difference(left.Contents(), right.Contents());
            stack.Contents() == old(stack.Contents()) + c + [|c|]
  {
    var before := stack.Size();
    DifferenceInto(stack, left, right);
    stack.Push(stack.Size() - before);
  }

  /** The `^` case: collect the common elements in a fresh buffer, then push
      them with their number. */
  method IntersectionCase(stack: Stack<int>, left: Stack<int>, right: Stack<int>)
    requires stack.Valid() && left.Valid() && right.Valid()
    requires stack != left && stack != right
    requires stack.base != left.base && stack.base != right.base
    modifies stack, stack.base
    ensures stack.Valid()
    ensures var c := Intersection(left.Contents(), right.Contents());
            stack.Contents() == old(stack.Contents()) + c + [|c|]
  {
    var buffer := new Stack<int>();
    IntersectionInto(buffer, left, right);
    PushAll(stack, buffer);
    stack.Push(buffer.Size());
  }

  /** The union loop: append to `left` each element of `right` it lacks. */
  method UnionInto(left: Stack<int>, right: Stack<int>)
    requires left.Valid() && right.Valid()
    requires left != right && left.base != right.base
    modifies left, left.base
    ensures left.Valid()
    ensures left.Contents() == AddMissing(old(left.Contents()), right.Contents())
    ensures left.base == old(left.base) || fresh(left.base)
  {
    ghost var l0 := left.Contents();
    ghost var r := right.Contents();
    var i := 0;
    while i < right.Size()
      invariant 0 <= i <= right.containerSize
      invariant left.Valid()
      invariant left.base == old(left.base) || fresh(left.base)
      invariant left.Contents() == AddMissing(l0, r[..i])
    {
      assert r[..i + 1][..i] == r[..i];
      PushIfMissing(left, right.base[i]);
      i := i + 1;
    }
    assert r[..i] == r;
  }

  /** One step of the union loop: push `x` onto `left` when Count finds no
      occurrence of it. */
  method PushIfMissing(left: Stack<int>, x: int)
    requires left.Valid()
    modifies left, left.base
    ensures left.Valid()
    ensures left.Contents() == if x in old(left.Contents()) then old(left.Contents()) else old(left.Contents()) + [x]
    ensures left.base == old(left.base) || fresh(left.base)
  {
    var c := Count(left, x);
    if c == 0 {
      left.Push(x);
    }
  }

  /** The difference loop: push onto `target` each element of `left` that
      `right` lacks. */
  method DifferenceInto(target: Stack<int>, left: Stack<int>, right: Stack<int>)
    requires target.Valid() && left.Valid() && right.Valid()
    requires target != left && target != right
    requires target.base != left.base && target.base != right.base
    modifies target, target.base
    ensures target.Valid()
    ensures target.Contents() == old(target.Contents()) + Difference(left.Contents(), right.Contents())
    ensures target.base == old(target.base) || fresh(target.base)
  {
    ghost var t0 := target.Contents();
    ghost var l, r := left.Contents(), right.Contents();
    var i := 0;
    while i < left.Size()
      invariant 0 <= i <= left.containerSize
      invariant target.Valid()
      invariant target.base == old(target.base) || fresh(target.base)
      invariant target.Contents() == t0 + Difference(l[..i], r)
    {
      var x := left.base[i];
      assert l[..i + 1][..i] == l[..i];
      var c := Count(right, x);
      if c == 0 {
        target.Push(x);
      }
      i := i + 1;
    }
    assert l[..i] == l;
  }

  /** The intersection loops: for each element of `left` and each of `right`,
      push the element onto `buffer` when the two are equal and `buffer` does
      not hold it yet. */
  method IntersectionInto(buffer: Stack<int>, left: Stack<int>, right: Stack<int>)
    requires buffer.Valid() && left.Valid() && right.Valid() && buffer.Contents() == []
    requires buffer != left && buffer != right
    requires buffer.base != left.base && buffer.base != right.base
    modifies buffer, buffer.base
    ensures buffer.Valid()
    ensures buffer.Contents() == Intersection(left.Contents(), right.Contents())
    ensures buffer.base == old(buffer.base) || fresh(buffer.base)
  {
    ghost var l := left.Contents();
    var i := 0;
    while i < left.Size()
      invariant 0 <= i <= left.containerSize
      invariant buffer.Valid()
      invariant buffer.base == old(buffer.base) || fresh(buffer.base)
      invariant buffer.Contents() == Intersection(l[..i], right.Contents())
    {
      assert l[..i + 1][..i] == l[..i];
      PushIfCommon(buffer, left.base[i], right);
      i := i + 1;
    }
    assert l[..i] == l;
  }

  /** The inner intersection loop for one element `x` of the left operand. */
  method PushIfCommon(buffer: Stack<int>, x: int, right: Stack<int>)
    requires buffer.Valid() && right.Valid()
    requires buffer != right && buffer.base != right.base
    modifies buffer, buffer.base
    ensures buffer.Valid()
    ensures var a := old(buffer.Contents());
            buffer.Contents() == if x in right.Contents() && x !in a then a + [x] else a
    ensures buffer.base == old(buffer.base) || fresh(buffer.base)
  {
    ghost var a := buffer.Contents();
    ghost var r := right.Contents();
    var j := 0;
    while j < right.Size()
      invariant 0 <= j <= right.containerSize
      invariant buffer.Valid()
      invariant buffer.base == old(buffer.base) || fresh(buffer.base)
      invariant buffer.Contents() == if x in r[..j] && x !in a then a + [x] else a
    {
      assert r[..j + 1] == r[..j] + [r[j]];
      var present := IsIn(x, buffer);
      if x == right.base[j] && !present {
        buffer.Push(x);
      }
      j := j + 1;
    }
    assert r[..j] == r;
  }
}
