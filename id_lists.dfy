/**
 * The list operations the room nodes perform on their id lists
 * (`List<string>.Add`, `Contains`, `Remove`) and the reasoning tools the
 * graph proofs need about them.
 */
module IdLists {

  /** No element occurs twice. */
  predicate NoDup<T(==)>(s: seq<T>) {
    forall i, j :: 0 <= i < j < |s| ==> s[i] != s[j]
  }

  /** Position of the first occurrence of `x`. */
  function FirstIndexOf<T(==)>(s: seq<T>, x: T): (i: nat)
    requires x in s
    ensures i < |s| && s[i] == x && x !in s[..i]
  {
    if s[0] == x then 0 else 1 + FirstIndexOf(s[1..], x)
  }

  /** `List<T>.Remove`: drops the first occurrence of `x`; leaves the list alone when `x` is absent. */
  function RemoveFirst<T(==)>(s: seq<T>, x: T): (r: seq<T>)
    ensures x !in s ==> r == s
    ensures x in s ==> |r| == |s| - 1
  {
    if |s| == 0 then s
    else if s[0] == x then s[1..]
    else
      assert x in s ==> x in s[1..];
      [s[0]] + RemoveFirst(s[1..], x)
  }

  /** `Remove` cuts the list around the first occurrence. */
  lemma RemoveFirstSplit<T>(s: seq<T>, x: T)
    requires x in s
    ensures RemoveFirst(s, x) == s[..FirstIndexOf(s, x)] + s[FirstIndexOf(s, x) + 1..]
  {
    RemoveFirstCut(s, x, FirstIndexOf(s, x));
  }

  /** The same, for a position `i` known to hold the first occurrence. */
  lemma {:induction false} RemoveFirstCut<T>(s: seq<T>, x: T, i: nat)
    requires i < |s| && s[i] == x && x !in s[..i]
    ensures RemoveFirst(s, x) == s[..i] + s[i + 1..]
  {
    if i > 0 {
      var t := s[1..];
      assert s[..i] == [s[0]] + t[..i - 1];
      assert s[i + 1..] == t[i..];
      RemoveFirstCut(t, x, i - 1);
    }
  }

  /** The elements of `s` that are not in `gone`, in their original order. */
  function Except<T(==)>(s: seq<T>, gone: set<T>): (r: seq<T>)
    ensures |r| <= |s|
    ensures forall i :: 0 <= i < |r| ==> r[i] in s && r[i] !in gone
    ensures forall i :: 0 <= i < |s| && s[i] !in gone ==> s[i] in r
  {
    if |s| == 0 then []
    else (if s[0] in gone then [] else [s[0]]) + Except(s[1..], gone)
  }

  /** The head of a list without repetitions does not occur in its tail, which has no repetitions either. */
  lemma NoDupTail<T>(s: seq<T>)
    requires NoDup(s) && |s| > 0
    ensures s[0] !in s[1..] && NoDup(s[1..])
  {
    assert forall j :: 0 <= j < |s[1..]| ==> s[1..][j] == s[1 + j];
  }

  lemma {:induction false} ExceptNoDup<T>(s: seq<T>, gone: set<T>)
    requires NoDup(s)
    ensures NoDup(Except(s, gone))
  {
    if |s| > 0 {
      NoDupTail(s);
      ExceptNoDup(s[1..], gone);
      var rest := Except(s[1..], gone);
      assert s[0] !in rest;
      if s[0] !in gone {
        assert Except(s, gone) == [s[0]] + rest;
        forall i, j | 0 <= i < j < |[s[0]] + rest| ensures ([s[0]] + rest)[i] != ([s[0]] + rest)[j] {
          if i == 0 {
            assert ([s[0]] + rest)[j] == rest[j - 1];
          }
        }
      }
    }
  }

  /** Removing one element at a time from a list without repetitions filters it out. */
  lemma {:induction false} RemoveFirstIsExcept<T>(s: seq<T>, gone: set<T>, x: T)
    requires NoDup(s)
    ensures RemoveFirst(Except(s, gone), x) == Except(s, gone + {x})
  {
    if |s| > 0 {
      NoDupTail(s);
      RemoveFirstIsExcept(s[1..], gone, x);
      var rest := Except(s[1..], gone);
      if s[0] == x {
        assert x !in rest;
        assert RemoveFirst(rest, x) == rest;
        assert Except(s, gone + {x}) == Except(s[1..], gone + {x});
        if s[0] !in gone {
          assert Except(s, gone) == [x] + rest;
        } else {
          assert Except(s, gone) == rest;
        }
      } else if s[0] !in gone {
        assert Except(s, gone) == [s[0]] + rest;
        assert Except(s, gone + {x}) == [s[0]] + Except(s[1..], gone + {x});
      } else {
        assert Except(s, gone) == rest;
        assert Except(s, gone + {x}) == Except(s[1..], gone + {x});
      }
    }
  }

  /** In a list without repetitions, removing the element found at position `i` deletes exactly that position. */
  lemma RemoveFirstAt<T>(s: seq<T>, i: nat)
    requires NoDup(s) && i < |s|
    ensures RemoveFirst(s, s[i]) == s[..i] + s[i + 1..]
  {
    var k := FirstIndexOf(s, s[i]);
    assert k == i;
    RemoveFirstSplit(s, s[i]);
  }

  lemma {:induction false} ExceptOfCons<T>(x: T, s: seq<T>, gone: set<T>)
    ensures Except([x] + s, gone) == (if x in gone then [] else [x]) + Except(s, gone)
  {
    assert ([x] + s)[1..] == s;
  }

  lemma {:induction false} ExceptNothing<T>(s: seq<T>)
    ensures Except(s, {}) == s
  {
    if |s| > 0 {
      ExceptNothing(s[1..]);
      assert s == [s[0]] + s[1..];
    }
  }

  /** `Remove` on a list without repetitions removes every occurrence and keeps the rest free of repetitions. */
  lemma {:induction false} RemoveFirstNoDup<T>(s: seq<T>, x: T)
    requires NoDup(s)
    ensures NoDup(RemoveFirst(s, x)) && x !in RemoveFirst(s, x)
    ensures forall y :: y in RemoveFirst(s, x) <==> y in s && y != x
  {
    if |s| > 0 {
      NoDupTail(s);
      assert s == [s[0]] + s[1..];
      if s[0] != x {
        RemoveFirstNoDup(s[1..], x);
        NoDupCons(s[0], RemoveFirst(s[1..], x));
      }
    }
  }

  lemma NoDupCons<T>(a: T, t: seq<T>)
    requires NoDup(t) && a !in t
    ensures NoDup([a] + t)
  {
    forall i, j | 0 <= i < j < |[a] + t| ensures ([a] + t)[i] != ([a] + t)[j] {
      assert ([a] + t)[j] == t[j - 1];
    }
  }

  lemma ExceptMember<T>(s: seq<T>, gone: set<T>, x: T)
    ensures x in Except(s, gone) <==> x in s && x !in gone
  {
    if x in Except(s, gone) {
      var i :| 0 <= i < |Except(s, gone)| && Except(s, gone)[i] == x;
    }
    if x in s && x !in gone {
      var i :| 0 <= i < |s| && s[i] == x;
    }
  }

  /** Filtering out an element the list does not contain changes nothing. */
  lemma ExceptAbsent<T>(s: seq<T>, gone: set<T>, x: T)
    requires NoDup(s) && x !in s
    ensures Except(s, gone + {x}) == Except(s, gone)
  {
    RemoveFirstIsExcept(s, gone, x);
    ExceptMember(s, gone, x);
  }
}
