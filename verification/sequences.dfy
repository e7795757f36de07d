/** Selections from a sequence, kept in order. */
module Sequences {

  function Select<T>(s: seq<T>, p: T -> bool): seq<T> {
    if s == [] then [] else if p(s[0]) then [s[0]] + Select(s[1..], p) else Select(s[1..], p)
  }

  function RemoveAt<T>(s: seq<T>, k: nat): seq<T>
    requires k < |s|
  {
    s[..k] + s[k + 1..]
  }

  lemma {:induction false} SelectConcat<T>(a: seq<T>, b: seq<T>, p: T -> bool)
    ensures Select(a + b, p) == Select(a, p) + Select(b, p)
  {
    if a == [] {
      assert a + b == b;
    } else {
      SelectConcat(a[1..], b, p);
      assert (a + b)[1..] == a[1..] + b;
    }
  }

  lemma SelectOne<T>(x: T, p: T -> bool)
    ensures Select([x], p) == if p(x) then [x] else []
  {
    assert [x][1..] == [];
  }

  lemma SelectAppend<T>(s: seq<T>, x: T, p: T -> bool)
    ensures Select(s + [x], p) == if p(x) then Select(s, p) + [x] else Select(s, p)
  {
    SelectConcat(s, [x], p);
    SelectOne(x, p);
  }

  lemma {:induction false} SelectNone<T>(s: seq<T>, p: T -> bool)
    requires forall i :: 0 <= i < |s| ==> !p(s[i])
    ensures Select(s, p) == []
  {
    if s != [] {
      SelectNone(s[1..], p);
    }
  }

  lemma {:induction false} SelectMembers<T>(s: seq<T>, p: T -> bool)
    ensures forall x :: x in Select(s, p) <==> x in s && p(x)
  {
    if s != [] {
      SelectMembers(s[1..], p);
      assert s == [s[0]] + s[1..];
    }
  }

  lemma {:induction false} SelectDistinct<T>(s: seq<T>, p: T -> bool)
    requires forall i, j :: 0 <= i < j < |s| ==> s[i] != s[j]
    ensures forall i, j :: 0 <= i < j < |Select(s, p)| ==> Select(s, p)[i] != Select(s, p)[j]
  {
    if s != [] {
      SelectDistinct(s[1..], p);
      SelectMembers(s[1..], p);
    }
  }

  /** Taking out the element at `k` drops it from the selections that have it, and from no other. */
  lemma SelectRemove<T>(s: seq<T>, k: nat, p: T -> bool)
    requires k < |s|
    ensures !p(s[k]) ==> Select(RemoveAt(s, k), p) == Select(s, p)
    ensures p(s[k]) && (forall i :: 0 <= i < k ==> !p(s[i])) ==> Select(s, p) == [s[k]] + Select(RemoveAt(s, k), p)
  {
    hide Select;
    var a, x, b := s[..k], [s[k]], s[k + 1..];
    assert s == a + (x + b);
    SelectConcat(a, x + b, p);
    SelectConcat(x, b, p);
    SelectConcat(a, b, p);
    SelectOne(s[k], p);
    if !p(s[k]) {
      assert [] + Select(b, p) == Select(b, p);
    } else if forall i :: 0 <= i < k ==> !p(s[i]) {
      SelectNone(a, p);
      assert [] + (x + Select(b, p)) == x + Select(b, p) && [] + Select(b, p) == Select(b, p);
    }
  }

  lemma ConsEqual<T>(a: T, s: seq<T>, b: T, t: seq<T>)
    ensures [a] + s == [b] + t <==> a == b && s == t
  {
    if [a] + s == [b] + t {
      assert ([a] + s)[0] == ([b] + t)[0] && ([a] + s)[1..] == ([b] + t)[1..];
    }
  }
}
