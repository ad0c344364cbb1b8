/** Paging through the grants. The contract's storage is ordered by raw keys: the length of the first
    component in two bytes, the first component, the second component. */
module GrantQuery {
  import opened Machine
  import opened Granter

  const DEFAULT_LIMIT := 10
  const MAX_LIMIT := 30

  // ---------- Raw keys and their order ----------

  function Raw(key: Key): Bytes {
    [|key.typeUrl| / 256, |key.typeUrl| % 256] + key.typeUrl + key.grantee
  }

  predicate Less(a: Bytes, b: Bytes) {
    b != [] && (a == [] || a[0] < b[0] || (a[0] == b[0] && Less(a[1..], b[1..])))
  }

  predicate Before(k: Key, l: Key) {
    Less(Raw(k), Raw(l))
  }

  lemma {:induction false} LessIrreflexive(a: Bytes)
    ensures !Less(a, a)
  {
    if a == [] {
    } else {
      LessIrreflexive(a[1..]);
    }
  }

  lemma {:induction false} LessTransitive(a: Bytes, b: Bytes, c: Bytes)
    requires Less(a, b) && Less(b, c)
    ensures Less(a, c)
  {
    if a == [] || a[0] != b[0] || b[0] != c[0] {
    } else {
      LessTransitive(a[1..], b[1..], c[1..]);
    }
  }

  lemma {:induction false} LessTotal(a: Bytes, b: Bytes)
    ensures a == b || Less(a, b) || Less(b, a)
  {
    if a == [] || b == [] || a[0] != b[0] {
    } else {
      LessTotal(a[1..], b[1..]);
      assert a == [a[0]] + a[1..] && b == [b[0]] + b[1..];
    }
  }

  lemma RawInjective(k: Key, l: Key)
    requires Raw(k) == Raw(l)
    ensures k == l
  {
    var r, s := Raw(k), Raw(l);
    assert r[0] == |k.typeUrl| / 256 && r[1] == |k.typeUrl| % 256;
    assert s[0] == |l.typeUrl| / 256 && s[1] == |l.typeUrl| % 256;
    assert |k.typeUrl| == |l.typeUrl|;
    var n := 2 + |k.typeUrl|;
    assert k.typeUrl == r[2..n] && l.typeUrl == s[2..n];
    assert k.grantee == r[n..] && l.grantee == s[n..];
  }

  lemma BeforeTotal(k: Key, l: Key)
    ensures k == l || Before(k, l) || Before(l, k)
    ensures !Before(k, k)
  {
    LessTotal(Raw(k), Raw(l));
    LessIrreflexive(Raw(k));
    if Raw(k) == Raw(l) {
      RawInjective(k, l);
    }
  }

  lemma BeforeTransitive(k: Key, l: Key, m: Key)
    requires Before(k, l) && Before(l, m)
    ensures Before(k, m)
  {
    LessTransitive(Raw(k), Raw(l), Raw(m));
  }

  // ---------- Ascending lists of keys ----------

  ghost predicate Ascending(ks: seq<Key>) {
    forall i, j :: 0 <= i < j < |ks| ==> Before(ks[i], ks[j])
  }

  lemma {:induction false} LeastExists(s: set<Key>)
    requires s != {}
    ensures exists k :: k in s && forall l :: l in s && l != k ==> Before(k, l)
    decreases |s|
  {
    hide Before;
    var x :| x in s;
    var rest := s - {x};
    if rest == {} {
      assert s == {x} + rest;
    } else {
      LeastExists(rest);
      var y :| y in rest && forall l :: l in rest && l != y ==> Before(y, l);
      BeforeTotal(x, y);
      if Before(x, y) {
        forall l | l in s && l != x ensures Before(x, l) {
          if l != y {
            BeforeTransitive(x, y, l);
          }
        }
      } else {
        assert forall l :: l in s && l != y ==> Before(y, l);
      }
    }
  }

  ghost function Least(s: set<Key>): (k: Key)
    requires s != {}
    ensures k in s && forall l :: l in s && l != k ==> Before(k, l)
  {
    LeastExists(s);
    var k :| k in s && forall l :: l in s && l != k ==> Before(k, l);
    k
  }

  /** The keys in storage order. */
  ghost function Sorted(s: set<Key>): (ks: seq<Key>)
    ensures |ks| == |s|
    ensures forall k :: k in ks <==> k in s
    ensures Ascending(ks)
    decreases |s|
  {
    if s == {} then []
    else
      var k := Least(s);
      var rest := Sorted(s - {k});
      LeastFirst(s, k, rest);
      [k] + rest
  }

  lemma LeastFirst(s: set<Key>, k: Key, rest: seq<Key>)
    requires k in s && forall l :: l in s && l != k ==> Before(k, l)
    requires Ascending(rest) && forall l :: l in rest <==> l in s - {k}
    ensures Ascending([k] + rest) && forall l :: l in [k] + rest <==> l in s
  {
    hide Before;
    var ks := [k] + rest;
    forall i, j | 0 <= i < j < |ks| ensures Before(ks[i], ks[j]) {
      assert ks[j] == rest[j - 1] && rest[j - 1] in rest;
    }
  }

  lemma {:induction false} AscendingUnique(xs: seq<Key>, ys: seq<Key>)
    requires Ascending(xs) && Ascending(ys)
    requires forall k :: k in xs <==> k in ys
    ensures xs == ys
  {
    hide Before;
    assert xs != [] ==> xs[0] in ys;
    assert ys != [] ==> ys[0] in xs;
    if xs == [] {
    } else {
      var x, y := xs[0], ys[0];
      BeforeTotal(x, y);
      if x != y {
        var i :| 0 < i < |ys| && ys[i] == x;
        var j :| 0 < j < |xs| && xs[j] == y;
        BeforeTransitive(x, y, x);
        BeforeTotal(x, x);
        assert false;
      }
      assert xs == [x] + xs[1..] && ys == [y] + ys[1..];
      forall k ensures k in xs[1..] <==> k in ys[1..] {
        BeforeTotal(x, x);
        assert k in xs[1..] <==> k in xs && k != x;
        assert k in ys[1..] <==> k in ys && k != y;
      }
      AscendingUnique(xs[1..], ys[1..]);
    }
  }

  // ---------- The query ----------

  /** The stored keys after the exclusive bound, which need not be stored itself. */
  ghost function After(grants: Grants, start: Option<Key>): set<Key> {
    set k | k in grants.Keys && (start.None? || Before(start.value, k))
  }

  function Limit(limit: Option<nat>): nat {
    var n := if limit.None? then DEFAULT_LIMIT else limit.value;
    if n < MAX_LIMIT then n else MAX_LIMIT
  }

  ghost function Page(grants: Grants, start: Option<Key>, limit: Option<nat>): (page: seq<Key>)
    ensures |page| <= MAX_LIMIT
    ensures forall k :: k in page ==> k in grants
  {
    var ks := Sorted(After(grants, start));
    if |ks| <= Limit(limit) then ks else ks[..Limit(limit)]
  }

  type Entry = (Key, Grant)

  ghost function Entries(grants: Grants, ks: seq<Key>): (es: seq<Entry>)
    requires forall k :: k in ks ==> k in grants
    ensures |es| == |ks|
  {
    seq(|ks|, i requires 0 <= i < |ks| => assert ks[i] in ks; (ks[i], grants[ks[i]]))
  }

  /** What one query returns. */
  ghost function GrantsQuery(grants: Grants, start: Option<Key>, limit: Option<nat>): (page: seq<Entry>)
    ensures |page| <= MAX_LIMIT
    ensures forall e :: e in page ==> e in grants.Items
  {
    Entries(grants, Page(grants, start, limit))
  }

  /** What is stored after the last key of a page is what the page left over. */
  lemma AfterPage(grants: Grants, start: Option<Key>, n: nat)
    requires var ks := Sorted(After(grants, start)); 0 < n <= |ks|
    ensures var ks := Sorted(After(grants, start)); Sorted(After(grants, Some(ks[n - 1]))) == ks[n..]
  {
    hide Before, Sorted;
    var ks := Sorted(After(grants, start));
    var rest := Sorted(After(grants, Some(ks[n - 1])));
    forall k ensures k in rest <==> k in ks[n..] {
      assert ks[n - 1] in ks;
      if k in rest {
        assert k in After(grants, Some(ks[n - 1]));
        if start.Some? {
          assert ks[n - 1] in After(grants, start);
          BeforeTransitive(start.value, ks[n - 1], k);
        }
        assert k in After(grants, start);
        var i :| 0 <= i < |ks| && ks[i] == k;
        BeforeTotal(k, k);
        if i < n - 1 {
          BeforeTransitive(k, ks[n - 1], k);
        }
        assert i >= n && ks[n..][i - n] == k;
      }
      if k in ks[n..] {
        var i :| n <= i < |ks| && ks[i] == k;
        assert Before(ks[n - 1], ks[i]);
        assert k in After(grants, start);
      }
    }
    AscendingUnique(rest, ks[n..]);
  }

  lemma StoredAfter(grants: Grants, start: Option<Key>)
    ensures forall k :: k in Sorted(After(grants, start)) ==> k in grants
  {
    hide Before, Sorted;
  }

  lemma EntryAt(grants: Grants, ks: seq<Key>, i: nat)
    requires i < |ks| && forall k :: k in ks ==> k in grants
    ensures Entries(grants, ks)[i].0 == ks[i]
  {
  }

  lemma PageIsPrefix(grants: Grants, start: Option<Key>, limit: Option<nat>)
    ensures var ks := Sorted(After(grants, start));
            var page := GrantsQuery(grants, start, limit);
            && |page| <= |ks| && (forall k :: k in ks[..|page|] ==> k in grants)
            && page == Entries(grants, ks[..|page|])
            && (page == [] && limit != Some(0) ==> ks == [])
  {
    hide Sorted, Before, Entries;
    StoredAfter(grants, start);
    var ks := Sorted(After(grants, start));
    var page := Page(grants, start, limit);
    assert page == ks[..|page|];
  }

  /** How long a page is: as long as the client asked for, or ten, but no longer than thirty and than what
      is left. */
  lemma PageLength(grants: Grants, start: Option<Key>, limit: Option<nat>)
    ensures var asked := if limit.None? then 10 else limit.value;
            var n := |GrantsQuery(grants, start, limit)|;
            && n <= asked && n <= 30 && n <= |After(grants, start)|
            && (n == asked || n == 30 || n == |After(grants, start)|)
  {
    hide Sorted, Before, After, Entries;
  }

  function Next(page: seq<Entry>): Option<Key>
    requires page != []
  {
    Some(page[|page| - 1].0)
  }

  /** After a page that is not empty there is less left. */
  lemma PageMovesOn(grants: Grants, start: Option<Key>, limit: Option<nat>)
    ensures var page := GrantsQuery(grants, start, limit);
            page != [] ==> |After(grants, Next(page))| < |After(grants, start)|
  {
    hide Sorted, Before, After, GrantsQuery, Entries;
    var ks := Sorted(After(grants, start));
    var n := |GrantsQuery(grants, start, limit)|;
    PageIsPrefix(grants, start, limit);
    if n > 0 {
      EntryAt(grants, ks[..n], n - 1);
      AfterPage(grants, start, n);
    }
  }

  /** A client that asks for page after page, each time after the last key it got, until a page is
      empty. */
  ghost function Pages(grants: Grants, start: Option<Key>, limit: Option<nat>): seq<seq<Entry>>
    decreases |After(grants, start)|
  {
    PageMovesOn(grants, start, limit);
    var page := GrantsQuery(grants, start, limit);
    if page == [] then [] else [page] + Pages(grants, Next(page), limit)
  }

  function Flatten<T>(xss: seq<seq<T>>): seq<T> {
    if xss == [] then [] else xss[0] + Flatten(xss[1..])
  }

  lemma FlattenCons<T>(xs: seq<T>, xss: seq<seq<T>>)
    ensures Flatten([xs] + xss) == xs + Flatten(xss)
  {
    assert ([xs] + xss)[1..] == xss;
  }

  /** With any limit but zero, the pages run through every stored grant after the start, each exactly
      once, in ascending order of the keys. */
  lemma {:induction false} PagesCoverAll(grants: Grants, start: Option<Key>, limit: Option<nat>)
    requires limit != Some(0)
    ensures Flatten(Pages(grants, start, limit)) == Entries(grants, Sorted(After(grants, start)))
    decreases |After(grants, start)|
  {
    hide Sorted, Before, After, Pages, Entries, GrantsQuery, Flatten;
    var ks := Sorted(After(grants, start));
    var page := GrantsQuery(grants, start, limit);
    PagesStep(grants, start, limit);
    StoredAfter(grants, start);
    PageIsPrefix(grants, start, limit);
    if page == [] {
      Unit(ks);
    } else {
      var n := |page|;
      AfterPage(grants, start, n);
      PagesCoverAll(grants, Some(ks[n - 1]), limit);
      EntriesSplit(grants, ks, n);
    }
  }

  lemma EntriesSplit(grants: Grants, ks: seq<Key>, n: nat)
    requires n <= |ks| && forall k :: k in ks ==> k in grants
    ensures Entries(grants, ks) == Entries(grants, ks[..n]) + Entries(grants, ks[n..])
  {
  }

  /** What the client has in hand: the first page and what follows from its last key. */
  lemma PagesStep(grants: Grants, start: Option<Key>, limit: Option<nat>)
    ensures var ks := Sorted(After(grants, start));
            var page := GrantsQuery(grants, start, limit);
            && |page| <= |ks|
            && Flatten(Pages(grants, start, limit)) ==
               if page == [] then [] else page + Flatten(Pages(grants, Some(ks[|page| - 1]), limit))
  {
    hide Sorted, Before, After, GrantsQuery, Flatten, Entries;
    var page := GrantsQuery(grants, start, limit);
    PageIsPrefix(grants, start, limit);
    if page == [] {
      NothingFlattens<Entry>();
    } else {
      var ks := Sorted(After(grants, start));
      EntryAt(grants, ks[..|page|], |page| - 1);
      FlattenCons(page, Pages(grants, Some(ks[|page| - 1]), limit));
    }
  }

  lemma NothingFlattens<T>()
    ensures Flatten<T>([]) == []
  {
  }

  /** With a limit of zero a client never gets past the first, empty page. */
  lemma ZeroLimit(grants: Grants, start: Option<Key>)
    ensures Pages(grants, start, Some(0)) == []
  {
  }

  /** From the beginning: what is stored and nothing else, each grant once and in ascending order of the
      keys. */
  lemma AllGrants(grants: Grants, limit: Option<nat>)
    requires limit != Some(0)
    ensures var all := Flatten(Pages(grants, None, limit));
            && (forall e :: e in all <==> e in grants.Items)
            && |all| == |grants|
            && forall i, j :: 0 <= i < j < |all| ==> Before(all[i].0, all[j].0)
  {
    PagesCoverAll(grants, None, limit);
    hide Sorted, Pages, Flatten, Before, Entries;
    assert After(grants, None) == grants.Keys;
    AllEntries(grants, Sorted(grants.Keys));
  }

  lemma AllEntries(grants: Grants, ks: seq<Key>)
    requires Ascending(ks) && |ks| == |grants.Keys| && forall k :: k in ks <==> k in grants
    ensures var all := Entries(grants, ks);
            && (forall e :: e in all <==> e in grants.Items)
            && |all| == |grants|
            && forall i, j :: 0 <= i < j < |all| ==> Before(all[i].0, all[j].0)
  {
    hide Before;
    var all := Entries(grants, ks);
    forall e ensures e in all <==> e in grants.Items {
      if e in grants.Items {
        assert e.0 in ks;
        var i :| 0 <= i < |ks| && ks[i] == e.0;
        assert all[i] == e;
      }
    }
  }
}
