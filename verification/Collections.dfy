/** Facts about sets, sequences and multisets that several modules lean on. */
module Collections {

  lemma NoMemberNoSize<T>(s: set<T>)
    requires forall y :: y !in s
    ensures |s| == 0
  {
    assert s == {};
  }

  lemma HasMember<T>(s: set<T>)
    requires |s| > 0
    ensures exists y :: y in s
  {
    if forall y :: y !in s {
      NoMemberNoSize(s);
    }
  }

  ghost function AnyOf<T>(s: set<T>): (x: T)
    requires |s| > 0
    ensures x in s
  {
    HasMember(s);
    var y :| y in s; y
  }

  /** Everything in every bag, with repetitions. */
  function Pooled<T>(bags: seq<seq<T>>): multiset<T> {
    if bags == [] then multiset{} else multiset(bags[0]) + Pooled(bags[1..])
  }

  lemma {:induction false} PooledUpdate<T>(bags: seq<seq<T>>, c: nat, bag: seq<T>)
    requires c < |bags|
    ensures Pooled(bags[c := bag]) + multiset(bags[c]) == Pooled(bags) + multiset(bag)
  {
    if c == 0 {
      assert bags[c := bag][1..] == bags[1..];
    } else {
      PooledUpdate(bags[1..], c - 1, bag);
      assert bags[c := bag][1..] == bags[1..][c - 1 := bag];
      var head, now, was := multiset(bags[0]), Pooled(bags[c := bag][1..]), Pooled(bags[1..]);
      assert (head + now) + multiset(bags[c]) == head + (now + multiset(bags[c]));
      assert (head + was) + multiset(bag) == head + (was + multiset(bag));
    }
  }

  lemma PooledPush<T>(bags: seq<seq<T>>, c: nat, x: T)
    requires c < |bags|
    ensures Pooled(bags[c := bags[c] + [x]]) == Pooled(bags) + multiset{x}
  {
    var more := bags[c] + [x];
    PooledUpdate(bags, c, more);
    assert multiset(more) == multiset(bags[c]) + multiset{x};
    var pool := Pooled(bags[c := more]);
    assert pool == (pool + multiset(bags[c])) - multiset(bags[c]);
  }

  lemma PooledPop<T>(bags: seq<seq<T>>, c: nat)
    requires c < |bags| && bags[c] != []
    ensures Pooled(bags[c := bags[c][1..]]) + multiset{bags[c][0]} == Pooled(bags)
  {
    var less := bags[c][1..];
    PooledPush(bags[c := less], c, bags[c][0]);
    PooledUpdate(bags, c, less);
    assert bags[c] == [bags[c][0]] + less;
    assert multiset(bags[c]) == multiset{bags[c][0]} + multiset(less);
    var pool := Pooled(bags);
    assert pool == (pool + multiset(less)) - multiset(less);
  }

  lemma SetWithout<T>(p: multiset<T>, big: set<T>, x: T)
    requires x in big && p + multiset{x} == multiset(big)
    ensures p == multiset(big - {x})
  {
    forall y
      ensures p[y] == multiset(big - {x})[y]
    {
      assert (p + multiset{x})[y] == multiset(big)[y];
    }
  }

  lemma {:induction false} PooledMember<T>(bags: seq<seq<T>>, x: T)
    ensures x in Pooled(bags) <==> exists c, i :: 0 <= c < |bags| && 0 <= i < |bags[c]| && bags[c][i] == x
  {
    if bags != [] {
      PooledMember(bags[1..], x);
      if c, i :| 0 <= c < |bags| && 0 <= i < |bags[c]| && bags[c][i] == x {
        if c > 0 {
          assert bags[1..][c - 1][i] == x;
        }
      }
      if x in Pooled(bags[1..]) {
        var c, i :| 0 <= c < |bags[1..]| && 0 <= i < |bags[1..][c]| && bags[1..][c][i] == x;
        assert bags[c + 1][i] == x;
      }
      if x in bags[0] {
        var i :| 0 <= i < |bags[0]| && bags[0][i] == x;
      }
    }
  }

  lemma OneBagAmong<T>(bags: seq<seq<T>>, c: nat)
    requires c < |bags|
    ensures multiset(bags[c]) <= Pooled(bags)
  {
    var none: seq<T> := [];
    PooledUpdate(bags, c, none);
    assert multiset(none) == multiset{};
    assert Pooled(bags) == Pooled(bags[c := none]) + multiset(bags[c]);
  }

  lemma TwoBagsAmong<T>(bags: seq<seq<T>>, c: nat, d: nat)
    requires c < |bags| && d < |bags| && c != d
    ensures multiset(bags[c]) + multiset(bags[d]) <= Pooled(bags)
  {
    var none: seq<T> := [];
    PooledUpdate(bags, c, none);
    assert multiset(none) == multiset{};
    OneBagAmong(bags[c := none], d);
    assert Pooled(bags) == Pooled(bags[c := none]) + multiset(bags[c]);
  }

  lemma TwiceInASequence<T>(s: seq<T>, i: nat, j: nat)
    requires i < j < |s| && s[i] == s[j]
    ensures multiset(s)[s[i]] >= 2
  {
    assert s == s[..j] + s[j..];
    assert s[i] == s[..j][i] && s[j] == s[j..][0];
    assert s[i] in multiset(s[..j]) && s[j] in multiset(s[j..]);
  }

  /** The same thing in two places is pooled at least twice. */
  lemma PooledTwice<T>(bags: seq<seq<T>>, c: nat, i: nat, d: nat, j: nat)
    requires c < |bags| && i < |bags[c]| && d < |bags| && j < |bags[d]|
    requires bags[c][i] == bags[d][j] && (c != d || i != j)
    ensures Pooled(bags)[bags[c][i]] >= 2
  {
    var x := bags[c][i];
    if c != d {
      TwoBagsAmong(bags, c, d);
      assert x in multiset(bags[c]) && x in multiset(bags[d]);
      assert (multiset(bags[c]) + multiset(bags[d]))[x] >= 2;
    } else {
      OneBagAmong(bags, c);
      TwiceInASequence(bags[c], if i < j then i else j, if i < j then j else i);
    }
  }

  function TotalSize<T>(bags: seq<seq<T>>): nat {
    if bags == [] then 0 else |bags[0]| + TotalSize(bags[1..])
  }

  lemma {:induction false} PooledSize<T>(bags: seq<seq<T>>)
    ensures |Pooled(bags)| == TotalSize(bags)
  {
    if bags != [] {
      PooledSize(bags[1..]);
    }
  }

  /** Two finite sets matched one to one by a pair of inverse maps have the same size. */
  lemma {:induction false} SameSize<A, B>(f: map<A, B>, g: map<B, A>, a: set<A>, b: set<B>)
    requires forall x :: x in a ==> x in f && f[x] in b && f[x] in g && g[f[x]] == x
    requires forall y :: y in b ==> y in g && g[y] in a && g[y] in f && f[g[y]] == y
    ensures |a| == |b|
    decreases |a|
  {
    if |a| == 0 {
      assert a == {};
      assert forall y :: y !in b;
      NoMemberNoSize(b);
    } else {
      HasMember(a);
      var x :| x in a;
      var y := f[x];
      forall z | z in a - {x}
        ensures f[z] in b - {y}
      {
        assert g[f[z]] == z;
      }
      forall z | z in b - {y}
        ensures g[z] in a - {x}
      {
        assert f[g[z]] == z;
      }
      SameSize(f, g, a - {x}, b - {y});
    }
  }

  lemma {:induction false} SeqAsSetSize<T>(q: seq<T>)
    requires forall i, j :: 0 <= i < j < |q| ==> q[i] != q[j]
    ensures |(set x | x in q)| == |q|
  {
    if q != [] {
      SeqAsSetSize(q[1..]);
      assert forall x :: x in q <==> x == q[0] || x in q[1..];
      assert (set x | x in q) == (set x | x in q[1..]) + {q[0]};
      assert q[0] !in q[1..];
    }
  }

  lemma {:induction false} SubsetSize<T>(a: set<T>, b: set<T>)
    requires a <= b
    ensures |a| <= |b|
  {
    assert b == a + (b - a);
    assert |b| == |a| + |b - a|;
  }
}
