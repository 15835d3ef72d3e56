/**
 * The shapes of the build script's loops, stated once over any element type: a loop that
 * maps every item, one that appends a part per item, one that keeps the items present,
 * one that remembers the last item present and one that inserts key-value pairs into a
 * map. Each is defined by recursion on the last item, as the loops consume their input
 * one item at a time, and each comes with the facts the rest of the model relies on.
 */
module Folds {
  import opened Wrappers

  // ---------------------------------------------------------------------------
  // Definitions

  function Map<A, B>(f: A -> B, s: seq<A>): (r: seq<B>)
    ensures |r| == |s|
  {
    seq(|s|, i requires 0 <= i < |s| => f(s[i]))
  }

  /** The parts, one after another. */
  function Flatten<T>(parts: seq<seq<T>>): seq<T> {
    if parts == [] then []
    else Flatten(parts[..|parts| - 1]) + parts[|parts| - 1]
  }

  /** The values of the items that are present, in order. */
  function Present<T>(opts: seq<Option<T>>): seq<T> {
    if opts == [] then []
    else
      Present(opts[..|opts| - 1])
        + match opts[|opts| - 1]
          case None => []
          case Some(v) => [v]
  }

  /** How many items are present. */
  function CountPresent<T>(opts: seq<Option<T>>): nat {
    if opts == [] then 0
    else CountPresent(opts[..|opts| - 1]) + (if opts[|opts| - 1].Some? then 1 else 0)
  }

  /** The last item that is present, if any. */
  function LastPresent<T>(opts: seq<Option<T>>): Option<T> {
    if opts == [] then None
    else if opts[|opts| - 1].Some? then opts[|opts| - 1]
    else LastPresent(opts[..|opts| - 1])
  }

  /** The map obtained by inserting the present pairs in order into an empty map. */
  function Insert<K, V>(entries: seq<Option<(K, V)>>): map<K, V> {
    if entries == [] then map[]
    else
      var m := Insert(entries[..|entries| - 1]);
      match entries[|entries| - 1]
      case None => m
      case Some((k, v)) => m[k := v]
  }

  /** Entry `e` is a pair with key `k`. */
  predicate HasKey<K(==), V>(e: Option<(K, V)>, k: K) {
    e.Some? && e.value.0 == k
  }

  // ---------------------------------------------------------------------------
  // One more item

  lemma MapSnoc<A, B>(f: A -> B, s: seq<A>, i: nat)
    requires i < |s|
    ensures Map(f, s[..i + 1]) == Map(f, s[..i]) + [f(s[i])]
  {
  }

  lemma MapPrefix<A, B>(f: A -> B, s: seq<A>, i: nat)
    requires i <= |s|
    ensures Map(f, s)[..i] == Map(f, s[..i])
  {
  }

  lemma MapAppend<A, B>(f: A -> B, a: seq<A>, b: seq<A>)
    ensures Map(f, a + b) == Map(f, a) + Map(f, b)
  {
  }

  lemma FlattenSnoc<T>(parts: seq<seq<T>>, part: seq<T>)
    ensures Flatten(parts + [part]) == Flatten(parts) + part
  {
    assert (parts + [part])[..|parts|] == parts;
  }

  lemma PresentSnoc<T>(opts: seq<Option<T>>, o: Option<T>)
    ensures Present(opts + [o]) == Present(opts) + match o case None => [] case Some(v) => [v]
  {
    assert (opts + [o])[..|opts|] == opts;
  }

  lemma LastPresentSnoc<T>(opts: seq<Option<T>>, o: Option<T>)
    ensures LastPresent(opts + [o]) == if o.Some? then o else LastPresent(opts)
  {
    assert (opts + [o])[..|opts|] == opts;
  }

  lemma InsertSnoc<K, V>(entries: seq<Option<(K, V)>>, e: Option<(K, V)>)
    ensures Insert(entries + [e]) ==
      match e
      case None => Insert(entries)
      case Some((k, v)) => Insert(entries)[k := v]
  {
    assert (entries + [e])[..|entries|] == entries;
  }

  // ---------------------------------------------------------------------------
  // Facts

  lemma {:induction false} FlattenAppend<T>(a: seq<seq<T>>, b: seq<seq<T>>)
    ensures Flatten(a + b) == Flatten(a) + Flatten(b)
    decreases |b|
  {
    if b == [] {
      assert a + b == a;
    } else {
      var n := |b| - 1;
      FlattenAppend(a, b[..n]);
      assert (a + b)[..|a + b| - 1] == a + b[..n];
      var x, y, z := Flatten(a), Flatten(b[..n]), b[n];
      assert (x + y) + z == x + (y + z);
    }
  }

  /** A value is in the flattening iff it is in one of the parts. */
  lemma {:induction false} FlattenMembership<T>(parts: seq<seq<T>>, v: T)
    ensures v in Flatten(parts) <==> exists i :: 0 <= i < |parts| && v in parts[i]
    decreases |parts|
  {
    if parts != [] {
      var last := |parts| - 1;
      var p := parts[..last];
      FlattenMembership(p, v);
      if v in Flatten(p) {
        var i :| 0 <= i < |p| && v in p[i];
        assert v in parts[i];
      }
      if exists i :: 0 <= i < |parts| && v in parts[i] {
        var i :| 0 <= i < |parts| && v in parts[i];
        if i < last {
          assert v in p[i];
        }
      }
    }
  }

  /** A value is kept iff some item carries it. */
  lemma {:induction false} PresentMembership<T>(opts: seq<Option<T>>, v: T)
    ensures v in Present(opts) <==> exists i :: 0 <= i < |opts| && opts[i] == Some(v)
    decreases |opts|
  {
    if opts != [] {
      var last := |opts| - 1;
      var p := opts[..last];
      PresentMembership(p, v);
      if opts[last].Some? {
        assert Present(opts) == Present(p) + [opts[last].value];
      } else {
        assert Present(opts) == Present(p);
      }
      if v in Present(p) {
        var i :| 0 <= i < |p| && p[i] == Some(v);
        assert opts[i] == Some(v);
      }
      if exists i :: 0 <= i < |opts| && opts[i] == Some(v) {
        var i :| 0 <= i < |opts| && opts[i] == Some(v);
        if i < last {
          assert p[i] == Some(v);
        }
      }
    }
  }

  lemma {:induction false} CountPresentPrefix<T>(opts: seq<Option<T>>, i: nat)
    requires i <= |opts|
    ensures CountPresent(opts[..i]) <= CountPresent(opts)
    ensures i < |opts| && opts[i].Some? ==> CountPresent(opts[..i]) < CountPresent(opts)
    decreases |opts|
  {
    if i < |opts| {
      var p := opts[..|opts| - 1];
      assert p[..i] == opts[..i];
      if i < |opts| - 1 {
        CountPresentPrefix(p, i);
        CountPresentPrefix(p, i + 1);
        assert p[..i + 1][..i] == p[..i];
        assert p[..i + 1][i] == opts[i];
      }
    } else {
      assert opts[..i] == opts;
    }
  }

  /**
   * The kept values keep their order: item `i`, when present, is the value at position
   * "number of present items before `i`".
   */
  lemma {:induction false} PresentPositions<T>(opts: seq<Option<T>>)
    ensures |Present(opts)| == CountPresent(opts)
    ensures forall i :: 0 <= i < |opts| && opts[i].Some? ==>
      CountPresent(opts[..i]) < |Present(opts)| && Present(opts)[CountPresent(opts[..i])] == opts[i].value
    decreases |opts|
  {
    if opts != [] {
      var last := |opts| - 1;
      var p := opts[..last];
      PresentPositions(p);
      forall i | 0 <= i < |opts| && opts[i].Some?
        ensures CountPresent(opts[..i]) < |Present(opts)|
        ensures Present(opts)[CountPresent(opts[..i])] == opts[i].value
      {
        if i < last {
          assert p[..i] == opts[..i] && p[i] == opts[i];
          CountPresentPrefix(p, i);
        } else {
          assert opts[..i] == p;
        }
      }
    }
  }

  /**
   * The last present item is None iff no item is present; otherwise it is an item after
   * which none is present.
   */
  lemma {:induction false} LastPresentSpec<T>(opts: seq<Option<T>>)
    ensures LastPresent(opts).Some? <==> exists i :: 0 <= i < |opts| && opts[i].Some?
    ensures LastPresent(opts).Some? ==>
      exists i :: 0 <= i < |opts| && opts[i] == LastPresent(opts)
        && (forall j :: i < j < |opts| ==> opts[j].None?)
    decreases |opts|
  {
    if opts != [] {
      var last := |opts| - 1;
      var p := opts[..last];
      LastPresentSpec(p);
      if opts[last].None? && LastPresent(p).Some? {
        var i :| 0 <= i < |p| && p[i] == LastPresent(p) && (forall j :: i < j < |p| ==> p[j].None?);
        assert opts[i] == LastPresent(opts);
        assert forall j :: i < j < |opts| ==> opts[j].None? by {
          forall j | i < j < |opts| ensures opts[j].None? {
            if j < last {
              assert p[j] == opts[j];
            }
          }
        }
      }
      if exists i :: 0 <= i < |opts| && opts[i].Some? {
        var i :| 0 <= i < |opts| && opts[i].Some?;
        if i < last {
          assert p[i].Some?;
        }
      }
    }
  }

  /** A key is in the map iff some entry has it. */
  lemma {:induction false} InsertKeys<K, V>(entries: seq<Option<(K, V)>>, k: K)
    ensures k in Insert(entries) <==> exists i :: 0 <= i < |entries| && HasKey(entries[i], k)
    decreases |entries|
  {
    if entries != [] {
      var last := |entries| - 1;
      var p := entries[..last];
      InsertKeys(p, k);
      if k in Insert(p) {
        var i :| 0 <= i < |p| && HasKey(p[i], k);
        assert HasKey(entries[i], k);
      }
      if exists i :: 0 <= i < |entries| && HasKey(entries[i], k) {
        var i :| 0 <= i < |entries| && HasKey(entries[i], k);
        if i < last {
          assert HasKey(p[i], k);
        }
      }
    }
  }

  /** A key is bound to the value of the last entry that has it. */
  lemma {:induction false} InsertLastWins<K, V>(entries: seq<Option<(K, V)>>, k: K)
    requires k in Insert(entries)
    ensures exists i :: (0 <= i < |entries| && entries[i] == Some((k, Insert(entries)[k]))
                         && forall j :: i < j < |entries| ==> !HasKey(entries[j], k))
    decreases |entries|
  {
    var last := |entries| - 1;
    var p := entries[..last];
    if HasKey(entries[last], k) {
      assert entries[last] == Some((k, Insert(entries)[k]));
    } else {
      InsertLastWins(p, k);
      var i :| 0 <= i < |p| && p[i] == Some((k, Insert(p)[k]))
        && (forall j :: i < j < |p| ==> !HasKey(p[j], k));
      assert entries[i] == Some((k, Insert(entries)[k]));
      forall j | i < j < |entries| ensures !HasKey(entries[j], k) {
        if j < last {
          assert p[j] == entries[j];
        }
      }
    }
  }
}
