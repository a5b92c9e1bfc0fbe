/** Machine integers and facts about collections that every other module uses. */
module Basics {

  datatype Option<+T> = None | Some(value: T)

  const I64_MAX: int := 0x7FFF_FFFF_FFFF_FFFF
  const U64_MAX: int := 0xFFFF_FFFF_FFFF_FFFF

  type Byte = b: int | 0 <= b < 256

  /** `u64` subtraction as a release build does it; a debug build panics on a wrap. The
      arguments are always `u64`s. */
  function WrappingSub(a: nat, b: nat): (r: nat)
    ensures r <= U64_MAX
    ensures a <= U64_MAX && b <= U64_MAX ==> r == if b <= a then a - b else a - b + U64_MAX + 1
  {
    if a > U64_MAX || b > U64_MAX then 0 else if b <= a then a - b else a - b + U64_MAX + 1
  }

  lemma Associative<T>(a: seq<T>, b: seq<T>, c: seq<T>)
    ensures (a + b) + c == a + (b + c)
  {
  }

  lemma ValuesHaveKeys(m: map<int, int>, v: int)
    ensures v in m.Values ==> exists k :: k in m && m[k] == v
  {
    if !exists k :: k in m && m[k] == v {
      assert v !in m.Values;
    }
  }

  lemma KeyOf(m: map<int, int>, v: int) returns (k: int)
    requires v in m.Values
    ensures k in m && m[k] == v
  {
    ValuesHaveKeys(m, v);
    k :| k in m && m[k] == v;
  }

  lemma EmptyOrNot(s: set<int>)
    ensures s == {} || exists x :: x in s
  {
    if !exists x :: x in s {
      assert s == {};
    }
  }

  lemma MemberOf(s: set<int>) returns (x: int)
    requires s != {}
    ensures x in s
  {
    EmptyOrNot(s);
    x :| x in s;
  }

  lemma {:induction false} LeastExists(s: set<int>)
    requires s != {}
    ensures exists m :: m in s && forall x :: x in s ==> m <= x
  {
    var x := MemberOf(s);
    if s != {x} {
      LeastExists(s - {x});
      var m :| m in s - {x} && forall y :: y in s - {x} ==> m <= y;
      assert forall y :: y in s ==> y == x || y in s - {x};
      assert if x <= m then (forall y :: y in s ==> x <= y) else (forall y :: y in s ==> m <= y);
    }
  }

  lemma {:induction false} GreatestExists(s: set<int>)
    requires s != {}
    ensures exists m :: m in s && forall x :: x in s ==> x <= m
  {
    var x := MemberOf(s);
    if s != {x} {
      GreatestExists(s - {x});
      var m :| m in s - {x} && forall y :: y in s - {x} ==> y <= m;
      assert forall y :: y in s ==> y == x || y in s - {x};
      assert if x >= m then (forall y :: y in s ==> y <= x) else (forall y :: y in s ==> y <= m);
    }
  }
}
