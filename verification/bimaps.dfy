/**
 * `EnumToStringBimap` (include/NetworkMonitor/Stomp/StompFrame.h): a relation between
 * enum values and their names that is unique on both sides. The constructor inserts the
 * given pairs in order; an insertion whose enum or whose name is already present is dropped.
 */
module Bimaps {
  import opened Wrappers

  /** Both views of the relation: `left` from enum to name, `right` from name to enum. */
  datatype Bimap<E, S> = Bimap(left: map<E, S>, right: map<S, E>)

  /** The two views describe the same one-to-one relation. */
  ghost predicate Valid<E, S>(b: Bimap<E, S>)
  {
    && (forall e :: e in b.left ==> b.left[e] in b.right && b.right[b.left[e]] == e)
    && (forall s :: s in b.right ==> b.right[s] in b.left && b.left[b.right[s]] == s)
  }

  function Empty<E, S>(): (b: Bimap<E, S>)
    ensures Valid(b)
    ensures |b.left| == 0 && |b.right| == 0
  {
    Bimap(map[], map[])
  }

  /**
   * One insertion into a `set_of`/`set_of` bimap: the pair is added only when neither its
   * enum nor its name is already present. Nothing already stored is ever overwritten.
   */
  function Insert<E, S>(b: Bimap<E, S>, e: E, s: S): (r: Bimap<E, S>)
    ensures Valid(b) ==> Valid(r)
    ensures e in r.left || s in r.right
    ensures forall x :: x in b.left ==> x in r.left && r.left[x] == b.left[x]
    ensures forall y :: y in b.right ==> y in r.right && r.right[y] == b.right[y]
    ensures r.left.Keys <= b.left.Keys + {e} && r.right.Keys <= b.right.Keys + {s}
    ensures e !in b.left && s !in b.right ==> e in r.left && r.left[e] == s
    ensures e in b.left || s in b.right ==> r == b
  {
    if e in b.left || s in b.right then b
    else Bimap(b.left[e := s], b.right[s := e])
  }

  /** No earlier pair of `m` shares the enum or the name of the pair at index `i`. */
  ghost predicate FreshAt<E, S>(m: seq<(E, S)>, i: nat)
    requires i < |m|
  {
    forall j :: 0 <= j < i ==> m[j].0 != m[i].0 && m[j].1 != m[i].1
  }

  /** Every stored pair is one of the pairs of `m`. */
  ghost predicate SourcedFrom<E, S>(b: Bimap<E, S>, m: seq<(E, S)>)
  {
    forall e :: e in b.left ==> exists i :: 0 <= i < |m| && m[i] == (e, b.left[e])
  }

  /** Every pair of `m` that clashes with no earlier pair is stored. */
  ghost predicate StoresFresh<E, S>(b: Bimap<E, S>, m: seq<(E, S)>)
  {
    forall i :: 0 <= i < |m| && FreshAt(m, i) ==> m[i].0 in b.left && b.left[m[i].0] == m[i].1
  }

  /** Every pair of `m` has its enum or its name taken. */
  ghost predicate Covers<E, S>(b: Bimap<E, S>, m: seq<(E, S)>)
  {
    forall i :: 0 <= i < |m| ==> m[i].0 in b.left || m[i].1 in b.right
  }

  /** The pair `pr` is stored: its enum is present and names exactly its name. */
  ghost predicate Stored<E, S>(b: Bimap<E, S>, pr: (E, S))
  {
    pr.0 in b.left && b.left[pr.0] == pr.1
  }

  /**
   * Every pair of `m` is stored, or an earlier pair sharing its enum or its name is stored:
   * a pair is only ever dropped in favour of one inserted before it.
   */
  ghost predicate FirstWins<E, S>(b: Bimap<E, S>, m: seq<(E, S)>)
  {
    forall i :: 0 <= i < |m| ==>
      Stored(b, m[i]) || exists j :: 0 <= j < i && Stored(b, m[j]) && (m[j].0 == m[i].0 || m[j].1 == m[i].1)
  }

  /** The constructor `EnumToStringBimap(mappings)`: ordered, first-wins insertion. */
  function Build<E, S>(m: seq<(E, S)>): (r: Bimap<E, S>)
    decreases |m|
    ensures Valid(r)
    ensures SourcedFrom(r, m) && StoresFresh(r, m) && Covers(r, m)
  {
    if |m| == 0 then Empty()
    else
      var prefix := Build(m[..|m| - 1]);
      var last := m[|m| - 1];
      BuildSourced(m, m[..|m| - 1], prefix);
      BuildStoresFresh(m, m[..|m| - 1], prefix);
      BuildCovers(m, m[..|m| - 1], prefix);
      Insert(prefix, last.0, last.1)
  }

  /** Inserting the last pair of `m` keeps every stored pair one of the pairs of `m`. */
  lemma BuildSourced<E, S>(m: seq<(E, S)>, p: seq<(E, S)>, prefix: Bimap<E, S>)
    requires |m| > 0 && p == m[..|m| - 1]
    requires SourcedFrom(prefix, p)
    ensures SourcedFrom(Insert(prefix, m[|m| - 1].0, m[|m| - 1].1), m)
  {
    var n := |m| - 1;
    var r := Insert(prefix, m[n].0, m[n].1);
    forall e | e in r.left
      ensures exists i :: 0 <= i < |m| && m[i] == (e, r.left[e])
    {
      if e in prefix.left {
        var i :| 0 <= i < n && p[i] == (e, prefix.left[e]);
        assert m[i] == p[i];
      } else {
        assert m[n] == (e, r.left[e]);
      }
    }
  }

  /** Inserting the last pair of `m` stores it when it is fresh and keeps the earlier ones. */
  lemma BuildStoresFresh<E, S>(m: seq<(E, S)>, p: seq<(E, S)>, prefix: Bimap<E, S>)
    requires |m| > 0 && p == m[..|m| - 1]
    requires Valid(prefix) && SourcedFrom(prefix, p) && StoresFresh(prefix, p)
    ensures StoresFresh(Insert(prefix, m[|m| - 1].0, m[|m| - 1].1), m)
  {
    var n := |m| - 1;
    var r := Insert(prefix, m[n].0, m[n].1);
    forall i | 0 <= i < |m| && FreshAt(m, i)
      ensures m[i].0 in r.left && r.left[m[i].0] == m[i].1
    {
      if i < n {
        assert p[i] == m[i];
        assert FreshAt(p, i);
      }
    }
  }

  /** Inserting the last pair of `m` leaves every pair of `m` with its enum or name taken. */
  lemma BuildCovers<E, S>(m: seq<(E, S)>, p: seq<(E, S)>, prefix: Bimap<E, S>)
    requires |m| > 0 && p == m[..|m| - 1]
    requires Covers(prefix, p)
    ensures Covers(Insert(prefix, m[|m| - 1].0, m[|m| - 1].1), m)
  {
    var n := |m| - 1;
    forall i | 0 <= i < n
      ensures p[i] == m[i]
    {
    }
  }

  /**
   * The constructor is first-wins: every pair is stored unless an earlier pair sharing its
   * enum or its name was stored before it. With `SourcedFrom` and `Valid` this determines
   * the bimap the constructor builds.
   */
  lemma {:induction false} BuildKeepsFirst<E, S>(m: seq<(E, S)>)
    ensures FirstWins(Build(m), m)
    decreases |m|
  {
    if |m| > 0 {
      var p := m[..|m| - 1];
      BuildKeepsFirst(p);
      BuildFirstWins(m, p, Build(p));
    }
  }

  /**
   * Inserting the last pair of `m` keeps earlier pairs' witnesses stored, and a dropped last
   * pair clashes with a stored pair, which `SourcedFrom` traces back to an earlier index.
   */
  lemma BuildFirstWins<E, S>(m: seq<(E, S)>, p: seq<(E, S)>, prefix: Bimap<E, S>)
    requires |m| > 0 && p == m[..|m| - 1]
    requires Valid(prefix) && SourcedFrom(prefix, p) && FirstWins(prefix, p)
    ensures FirstWins(Insert(prefix, m[|m| - 1].0, m[|m| - 1].1), m)
  {
    var n := |m| - 1;
    var r := Insert(prefix, m[n].0, m[n].1);
    forall i | 0 <= i < |m|
      ensures Stored(r, m[i]) || exists j :: 0 <= j < i && Stored(r, m[j]) && (m[j].0 == m[i].0 || m[j].1 == m[i].1)
    {
      if i < n {
        assert p[i] == m[i];
        if !Stored(prefix, p[i]) {
          var j :| 0 <= j < i && Stored(prefix, p[j]) && (p[j].0 == p[i].0 || p[j].1 == p[i].1);
          assert p[j] == m[j] && Stored(r, m[j]);
        }
      } else if m[n].0 in prefix.left {
        var j :| 0 <= j < n && p[j] == (m[n].0, prefix.left[m[n].0]);
        assert p[j] == m[j] && Stored(r, m[j]);
      } else if m[n].1 in prefix.right {
        var e := prefix.right[m[n].1];
        var j :| 0 <= j < n && p[j] == (e, prefix.left[e]);
        assert p[j] == m[j] && Stored(r, m[j]);
      }
    }
  }

  /** `ToString`: the name stored for `e`, or none. */
  function ToString<E, S>(b: Bimap<E, S>, e: E): Option<S>
  {
    if e in b.left then Some(b.left[e]) else None
  }

  /** `ToEnum`: the enum stored for `s`, or none. */
  function ToEnum<E, S>(b: Bimap<E, S>, s: S): Option<E>
  {
    if s in b.right then Some(b.right[s]) else None
  }

  /** The two lookups are inverse to each other over the stored pairs. */
  lemma LookupsInverse<E, S>(b: Bimap<E, S>, e: E, s: S)
    requires Valid(b)
    ensures ToEnum(b, s) == Some(e) <==> ToString(b, e) == Some(s)
  {
  }

  /**
   * A pair whose name was already stored for another enum, and whose enum occurs in no
   * other pair, leaves its enum without a name: the insertion is dropped, not merged.
   */
  lemma DroppedPairHasNoName<E, S>(m: seq<(E, S)>, i: nat, j: nat)
    requires j < |m| && i < |m|
    requires FreshAt(m, j)
    requires m[j].1 == m[i].1 && m[j].0 != m[i].0
    requires forall k :: 0 <= k < |m| && k != i ==> m[k].0 != m[i].0
    ensures ToString(Build(m), m[i].0) == None
  {
    DroppedPairUnnamed(Build(m), m, i, j);
  }

  /**
   * The same fact for any valid bimap whose pairs come from `m` and that stores pair `j`:
   * the only pair naming `m[i].0` would reuse the name already owned by `m[j].0`.
   */
  lemma DroppedPairUnnamed<E, S>(b: Bimap<E, S>, m: seq<(E, S)>, i: nat, j: nat)
    requires j < |m| && i < |m|
    requires Valid(b) && SourcedFrom(b, m) && Stored(b, m[j])
    requires m[j].1 == m[i].1 && m[j].0 != m[i].0
    requires forall k :: 0 <= k < |m| && k != i ==> m[k].0 != m[i].0
    ensures ToString(b, m[i].0) == None
  {
  }
}
