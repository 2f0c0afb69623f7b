/** Small value-level helpers shared by the daemon models. */
module Util {

  datatype Option<+T> = None | Some(value: T)

  ghost predicate NoDups<T>(s: seq<T>) {
    s == [] || (s[0] !in s[1..] && NoDups(s[1..]))
  }

  lemma NoDupsCons<T>(x: T, s: seq<T>)
    ensures NoDups([x] + s) <==> x !in s && NoDups(s)
  {
    assert ([x] + s)[1..] == s;
  }

  /** `s` without its first occurrence of `x`; `s` itself when `x` does not occur. */
  function RemoveFirst<T(==)>(s: seq<T>, x: T): (r: seq<T>)
    ensures |r| == if x in s then |s| - 1 else |s|
  {
    if s == [] then []
    else if s[0] == x then s[1..]
    else [s[0]] + RemoveFirst(s[1..], x)
  }

  lemma RemoveFirstCons<T>(h: T, t: seq<T>, x: T)
    ensures RemoveFirst([h] + t, x) == if h == x then t else [h] + RemoveFirst(t, x)
  {
    assert ([h] + t)[1..] == t;
  }

  lemma {:induction false} RemoveFirstSkips<T>(a: seq<T>, b: seq<T>, x: T)
    requires x !in a
    ensures RemoveFirst(a + b, x) == a + RemoveFirst(b, x)
  {
    hide RemoveFirst;
    if a == [] {
      assert a + b == b;
    } else {
      RemoveFirstSkips(a[1..], b, x);
      assert a + b == [a[0]] + (a[1..] + b);
      RemoveFirstCons(a[0], a[1..] + b, x);
      assert a == [a[0]] + a[1..];
    }
  }

  lemma {:induction false} RemoveFirstInside<T>(a: seq<T>, b: seq<T>, x: T)
    requires x in a
    ensures RemoveFirst(a + b, x) == RemoveFirst(a, x) + b
  {
    assert (a + b)[0] == a[0];
    if a[0] == x {
      assert (a + b)[1..] == a[1..] + b;
    } else {
      assert a == [a[0]] + a[1..];
      RemoveFirstInside(a[1..], b, x);
      assert (a + b)[1..] == a[1..] + b;
    }
  }

  lemma {:induction false} RemoveFirstAbsent<T>(s: seq<T>, x: T)
    requires x !in s
    ensures RemoveFirst(s, x) == s
  {
    assert s + [] == s;
    RemoveFirstSkips(s, [], x);
  }

  /** On a sequence without repeats, removing `x` drops exactly `x` and keeps it repeat-free. */
  lemma {:induction false} RemoveFirstNoDups<T>(s: seq<T>, x: T)
    requires NoDups(s)
    ensures NoDups(RemoveFirst(s, x))
    ensures forall y :: y in RemoveFirst(s, x) <==> y in s && y != x
  {
    if s != [] {
      if s[0] != x {
        RemoveFirstNoDups(s[1..], x);
        NoDupsCons(s[0], RemoveFirst(s[1..], x));
      }
      forall y ensures y in RemoveFirst(s, x) <==> y in s && y != x {
        assert y in s <==> y == s[0] || y in s[1..];
      }
    }
  }

  lemma {:induction false} EraseIsRemove<T>(s: seq<T>, k: nat)
    requires k < |s| && s[k] !in s[..k]
    ensures s[..k] + s[k + 1..] == RemoveFirst(s, s[k])
  {
    assert s == s[..k] + s[k..];
    RemoveFirstSkips(s[..k], s[k..], s[k]);
  }

  /** Adding a new key and dropping it again. */
  lemma PutThenDrop<K, V>(m: map<K, V>, k: K, v: V)
    requires k !in m
    ensures m[k := v] - {k} == m
  {
  }

  const TWO31: int := 0x8000_0000
  const TWO32: int := 0x1_0000_0000

  /** The value of the low 32 bits as a signed number. */
  function S32(x: int): int { if x % TWO32 >= TWO31 then x % TWO32 - TWO32 else x % TWO32 }

  /** The width of off_t, the type of file offsets. */
  datatype Width = Off32 | Off64
}
