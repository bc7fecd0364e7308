/** Resource kinds, resource references and the order in which ordered maps and
    change lists enumerate them. */
module Names {
  type Name = string

  /** In the alphabetical order of their type labels: access_key, asset, credential. */
  datatype Kind = AccessKeys | Assets | Credentials

  /** A resource as manifests name it. */
  datatype Ref = Ref(kind: Kind, name: Name)

  function Rank(kind: Kind): nat {
    match kind
    case AccessKeys => 0
    case Assets => 1
    case Credentials => 2
  }

  /** Lexicographic order by code point, which is also the order of UTF-8 bytes. */
  predicate NameLess(a: Name, b: Name) {
    if b == [] then false
    else if a == [] then true
    else if a[0] == b[0] then NameLess(a[1..], b[1..])
    else a[0] < b[0]
  }

  predicate Less(a: Ref, b: Ref) {
    if a.kind == b.kind then NameLess(a.name, b.name) else Rank(a.kind) < Rank(b.kind)
  }

  /** The first difference decides, and a name comes before what continues it. */
  lemma {:induction false} NameLessExactly(a: Name, b: Name)
    ensures NameLess(a, b) <==> exists i :: 0 <= i <= |a| && DecidedAt(a, b, i)
  {
    if a != [] && b != [] && a[0] == b[0] {
      NameLessExactly(a[1..], b[1..]);
      if NameLess(a, b) {
        var i :| 0 <= i <= |a[1..]| && DecidedAt(a[1..], b[1..], i);
        assert a[..i + 1] == [a[0]] + a[1..][..i] && b[..i + 1] == [b[0]] + b[1..][..i];
        assert DecidedAt(a, b, i + 1);
      }
      if i :| 0 <= i <= |a| && DecidedAt(a, b, i) {
        assert i > 0 && a[..i][1..] == a[1..][..i - 1] && b[..i][1..] == b[1..][..i - 1];
        assert DecidedAt(a[1..], b[1..], i - 1);
      }
    } else if NameLess(a, b) {
      assert DecidedAt(a, b, 0);
    }
  }

  predicate DecidedAt(a: Name, b: Name, i: nat)
    requires i <= |a|
  {
    i < |b| && a[..i] == b[..i] && (i == |a| || a[i] < b[i])
  }

  /** The type labels of change entries. */
  function Label(kind: Kind): string {
    match kind
    case AccessKeys => "access_key"
    case Assets => "asset"
    case Credentials => "credential"
  }

  /** References are ordered by type label, then by name. */
  lemma LessByLabel(a: Ref, b: Ref)
    ensures Less(a, b) <==> NameLess(Label(a.kind), Label(b.kind)) || (a.kind == b.kind && NameLess(a.name, b.name))
  {
    NameLessIrreflexive(Label(a.kind));
    var key, asset, credential := "access_key", "asset", "credential";
    assert NameLess(key[1..], asset[1..]) && !NameLess(asset[1..], key[1..]);
    assert NameLess(key, asset) && NameLess(key, credential) && NameLess(asset, credential);
    assert !NameLess(asset, key) && !NameLess(credential, key) && !NameLess(credential, asset);
  }

  lemma {:induction false} NameLessTrans(a: Name, b: Name, c: Name)
    requires NameLess(a, b) && NameLess(b, c)
    ensures NameLess(a, c)
  {
    if a != [] && a[0] == b[0] && b[0] == c[0] {
      NameLessTrans(a[1..], b[1..], c[1..]);
    }
  }

  lemma {:induction false} NameLessTotal(a: Name, b: Name)
    ensures a == b || NameLess(a, b) || NameLess(b, a)
  {
    if a != [] && b != [] && a[0] == b[0] {
      NameLessTotal(a[1..], b[1..]);
      assert a == [a[0]] + a[1..] && b == [b[0]] + b[1..];
    }
  }

  lemma {:induction false} NameLessIrreflexive(a: Name)
    ensures !NameLess(a, a)
  {
    if a != [] {
      NameLessIrreflexive(a[1..]);
    }
  }

  lemma LessTrans(a: Ref, b: Ref, c: Ref)
    requires Less(a, b) && Less(b, c)
    ensures Less(a, c)
  {
    if a.kind == b.kind == c.kind {
      NameLessTrans(a.name, b.name, c.name);
    }
  }

  lemma LessTotal(a: Ref, b: Ref)
    ensures a == b || Less(a, b) || Less(b, a)
  {
    NameLessTotal(a.name, b.name);
  }

  lemma LessIrreflexive(a: Ref)
    ensures !Less(a, a)
  {
    NameLessIrreflexive(a.name);
  }

  /** Strictly increasing by the reference that `ref` reads off each element. */
  ghost predicate StrictlySorted<T>(ref: T -> Ref, s: seq<T>) {
    forall i, j :: 0 <= i < j < |s| ==> Less(ref(s[i]), ref(s[j]))
  }

  /** A strictly sorted sequence is determined by its elements. */
  lemma {:induction false} SortedUnique<T>(ref: T -> Ref, s: seq<T>, t: seq<T>)
    requires StrictlySorted(ref, s) && StrictlySorted(ref, t)
    requires forall x :: x in s <==> x in t
    ensures s == t
    decreases |s|
  {
    if s == [] || t == [] {
      EmptyHasNone(s);
      EmptyHasNone(t);
    } else {
      SortedHead(ref, s, t[0]);
      SortedHead(ref, t, s[0]);
      if s[0] != t[0] {
        LessTrans(ref(s[0]), ref(t[0]), ref(s[0]));
        LessIrreflexive(ref(s[0]));
      }
      forall x ensures x in s[1..] <==> x in t[1..] {
        SortedTail(ref, s, x);
        SortedTail(ref, t, x);
      }
      SortedUnique(ref, s[1..], t[1..]);
      assert s == [s[0]] + s[1..] && t == [t[0]] + t[1..];
    }
  }

  lemma EmptyHasNone<T>(s: seq<T>)
    ensures s == [] <==> forall x :: x !in s
  {
    if s != [] { assert s[0] in s; }
  }

  lemma SortedHead<T>(ref: T -> Ref, s: seq<T>, x: T)
    requires StrictlySorted(ref, s) && s != []
    ensures s[0] in s
    ensures x in s ==> x == s[0] || Less(ref(s[0]), ref(x))
  {
  }

  lemma SortedTail<T>(ref: T -> Ref, s: seq<T>, x: T)
    requires StrictlySorted(ref, s) && s != []
    ensures x in s[1..] <==> x in s && x != s[0]
  {
    LessIrreflexive(ref(s[0]));
    if x in s && x != s[0] {
      var i :| 0 <= i < |s| && s[i] == x;
      assert s[1..][i - 1] == x;
    }
    if i :| 0 <= i < |s[1..]| && s[1..][i] == x {
      assert Less(ref(s[0]), ref(s[i + 1]));
    }
  }

  /** Puts `x` where its reference belongs in a strictly sorted sequence. */
  method Insert<T>(ref: T -> Ref, x: T, s: seq<T>) returns (t: seq<T>)
    requires StrictlySorted(ref, s)
    requires forall y :: y in s ==> ref(y) != ref(x)
    ensures StrictlySorted(ref, t)
    ensures multiset(t) == multiset(s) + multiset{x}
  {
    hide Less, StrictlySorted;
    var i := 0;
    while i < |s| && Less(ref(s[i]), ref(x))
      invariant 0 <= i <= |s|
      invariant forall k :: 0 <= k < i ==> Less(ref(s[k]), ref(x))
    {
      i := i + 1;
    }
    t := s[..i] + [x] + s[i..];
    assert s == s[..i] + s[i..];
    forall j | i <= j < |s| ensures Less(ref(x), ref(s[j])) {
      assert s[i] in s;
      LessTotal(ref(x), ref(s[i]));
      if i < j {
        SortedPair(ref, s, i, j);
        LessTrans(ref(x), ref(s[i]), ref(s[j]));
      }
    }
    InsertedSorted(ref, x, s, i);
  }

  lemma SortedPair<T>(ref: T -> Ref, s: seq<T>, i: nat, j: nat)
    requires StrictlySorted(ref, s) && i < j < |s|
    ensures Less(ref(s[i]), ref(s[j]))
  {
  }

  lemma InsertedSorted<T>(ref: T -> Ref, x: T, s: seq<T>, i: nat)
    requires i <= |s| && StrictlySorted(ref, s)
    requires forall k :: 0 <= k < i ==> Less(ref(s[k]), ref(x))
    requires forall k :: i <= k < |s| ==> Less(ref(x), ref(s[k]))
    ensures StrictlySorted(ref, s[..i] + [x] + s[i..])
  {
    hide Less;
    var t := s[..i] + [x] + s[i..];
    forall k, l | 0 <= k < l < |t| ensures Less(ref(t[k]), ref(t[l])) {
      assert t[k] == if k < i then s[k] else if k == i then x else s[k - 1];
      assert t[l] == if l < i then s[l] else if l == i then x else s[l - 1];
    }
  }

  /** The next element of an ordered enumeration, as a BTreeMap or BTreeSet gives it. */
  method Least(refs: set<Ref>) returns (r: Ref)
    requires refs != {}
    ensures r in refs && forall q :: q in refs && q != r ==> Less(r, q)
  {
    r :| r in refs;
    var rest := refs - {r};
    while rest != {}
      invariant rest <= refs && r in refs - rest
      invariant forall q :: q in refs - rest && q != r ==> Less(r, q)
    {
      var x :| x in rest;
      LessTotal(x, r);
      if Less(x, r) {
        forall q | q in refs - rest && q != r ensures Less(x, q) { LessTrans(x, r, q); }
        r := x;
      }
      rest := rest - {x};
    }
  }
}
