/** `list_devices` of sylo/webapp/queries.py: per-month GROUP BY results folded together. */
module Devices {
  import opened Wrappers
  import opened Seqs
  import opened Sorting
  import opened Envelope
  import Lex

  /** One row of `SELECT COALESCE(host, source_ip) ... GROUP BY device_key`. */
  datatype Group = Group(deviceKey: string, sourceIp: string, host: Option<string>, lastSeen: string, messageCount: nat)

  function DeviceKey(r: Row): string {
    match r.fields.host case Some(h) => h case None => r.sourceIp
  }

  /** Rows with a host are one device if they share it, whatever their addresses; rows without one
      are told apart by address. */
  lemma {:induction false} OneDevice(a: Row, b: Row)
    ensures a.fields.host.Some? ==> DeviceKey(a) == a.fields.host.value
    ensures a.fields.host.None? ==> DeviceKey(a) == a.sourceIp
    ensures a.fields.host.Some? && b.fields.host.Some? ==> (DeviceKey(a) == DeviceKey(b) <==> a.fields.host == b.fields.host)
    ensures a.fields.host.None? && b.fields.host.None? ==> (DeviceKey(a) == DeviceKey(b) <==> a.sourceIp == b.sourceIp)
  {
  }

  function KeyOf(g: Group): string { g.deviceKey }
  function LastSeen(g: Group): string { g.lastSeen }

  ghost predicate IsLatest(t: string, rows: seq<Row>) {
    (exists r :: r in rows && r.receiptTime == t) && (forall r :: r in rows ==> Lex.Leq(r.receiptTime, t))
  }

  ghost predicate Represents(sourceIp: string, host: Option<string>, rows: seq<Row>) {
    exists r :: r in rows && r.sourceIp == sourceIp && r.fields.host == host
  }

  // A group for one device key, over all its rows. Address and host are those of some row.
  ghost predicate IsGroup(g: Group, rows: seq<Row>) {
    var own := Select(rows, DeviceKey, g.deviceKey);
    own != [] && g.messageCount == |own| && IsLatest(g.lastSeen, own) && Represents(g.sourceIp, g.host, own)
  }

  /** What GROUP BY returns: a group for each key that occurs, once, in any order. */
  ghost predicate IsGroupBy(groups: seq<Group>, rows: seq<Row>) {
    && Distinct(groups, KeyOf)
    && (forall i :: 0 <= i < |groups| ==> IsGroup(groups[i], rows))
    && (forall r :: r in rows ==> exists i :: 0 <= i < |groups| && groups[i].deviceKey == DeviceKey(r))
  }

  // ----- what a GROUP BY result determines -----

  function TotalCount(groups: seq<Group>): nat {
    if groups == [] then 0 else TotalCount(groups[..|groups| - 1]) + groups[|groups| - 1].messageCount
  }

  lemma {:induction false} LatestUnique(t: string, u: string, rows: seq<Row>)
    requires IsLatest(t, rows) && IsLatest(u, rows)
    ensures t == u
  {
    hide Lex.Lt;
    Lex.Trichotomy(t, u);
  }

  /** Counts and last-seen times are determined by the rows alone, as a multiset. */
  lemma {:induction false} GroupByDetermined(a: seq<Group>, rowsA: seq<Row>, b: seq<Group>, rowsB: seq<Row>, i: nat)
    requires IsGroupBy(a, rowsA) && IsGroupBy(b, rowsB) && multiset(rowsA) == multiset(rowsB) && i < |a|
    ensures exists j :: 0 <= j < |b| && b[j].deviceKey == a[i].deviceKey && b[j].messageCount == a[i].messageCount
                        && b[j].lastSeen == a[i].lastSeen
  {
    hide IsLatest, Represents, DeviceKey, Select, Distinct;
    var k := a[i].deviceKey;
    var ownA, ownB := Select(rowsA, DeviceKey, k), Select(rowsB, DeviceKey, k);
    assert IsGroup(a[i], rowsA);
    SameSelections(rowsA, rowsB, k);
    SelectIn(rowsA, DeviceKey, k);
    assert ownA[0] in rowsA;
    assert ownA[0] in multiset(rowsB);
    var j :| 0 <= j < |b| && b[j].deviceKey == DeviceKey(ownA[0]);
    assert IsGroup(b[j], rowsB);
    SameLatest(b[j].lastSeen, ownB, ownA);
    LatestUnique(a[i].lastSeen, b[j].lastSeen, ownA);
  }

  lemma {:induction false} SameLatest(t: string, a: seq<Row>, b: seq<Row>)
    requires IsLatest(t, a) && multiset(a) == multiset(b)
    ensures IsLatest(t, b)
  {
    hide Lex.Leq;
    forall r ensures r in a <==> r in b {
      assert r in multiset(a) <==> r in multiset(b);
    }
  }

  lemma {:induction false} SameSelections(a: seq<Row>, b: seq<Row>, k: string)
    requires multiset(a) == multiset(b)
    ensures multiset(Select(a, DeviceKey, k)) == multiset(Select(b, DeviceKey, k))
    ensures |Select(a, DeviceKey, k)| == |Select(b, DeviceKey, k)|
  {
    hide DeviceKey;
    forall x ensures multiset(Select(a, DeviceKey, k))[x] == multiset(Select(b, DeviceKey, k))[x] {
      SelectIn(a, DeviceKey, k);
      SelectIn(b, DeviceKey, k);
      if DeviceKey(x) == k {
        SelectMultiplicity(a, DeviceKey, x);
        SelectMultiplicity(b, DeviceKey, x);
      } else {
        assert x !in Select(a, DeviceKey, k) && x !in Select(b, DeviceKey, k);
      }
    }
    var ma, mb := multiset(Select(a, DeviceKey, k)), multiset(Select(b, DeviceKey, k));
    assert ma == mb;
    assert |ma| == |mb|;
  }

  // Taking the rows of one key away.
  function Without(rows: seq<Row>, k: string): seq<Row> {
    if rows == [] then []
    else if DeviceKey(rows[0]) == k then Without(rows[1..], k)
    else [rows[0]] + Without(rows[1..], k)
  }

  lemma {:induction false} WithoutParts(rows: seq<Row>, k: string, other: string)
    ensures |rows| == |Select(rows, DeviceKey, k)| + |Without(rows, k)|
    ensures Select(Without(rows, k), DeviceKey, other) == if other == k then [] else Select(rows, DeviceKey, other)
    ensures forall r :: r in Without(rows, k) ==> r in rows && DeviceKey(r) != k
  {
    hide DeviceKey;
    if rows != [] {
      WithoutParts(rows[1..], k, other);
      assert rows == [rows[0]] + rows[1..];
      var rest := Without(rows[1..], k);
      if DeviceKey(rows[0]) == k {
        assert Without(rows, k) == rest;
      } else {
        assert Without(rows, k) == [rows[0]] + rest && ([rows[0]] + rest)[1..] == rest;
      }
    }
  }

  lemma {:induction false} EmptyOrFirst(rows: seq<Row>)
    ensures rows == [] || rows[0] in rows
  {
  }

  /** The counts add up to the number of rows read. */
  lemma {:induction false} CountsAddUp(groups: seq<Group>, rows: seq<Row>)
    requires IsGroupBy(groups, rows)
    ensures TotalCount(groups) == |rows|
    decreases |groups|
  {
    hide DeviceKey, IsLatest, Represents;
    if groups == [] {
      EmptyOrFirst(rows);
    } else {
      var n := |groups| - 1;
      var k := groups[n].deviceKey;
      var rest := Without(rows, k);
      assert IsGroup(groups[n], rows);
      WithoutParts(rows, k, k);
      forall i | 0 <= i < n ensures IsGroup(groups[..n][i], rest) {
        WithoutParts(rows, k, groups[i].deviceKey);
        assert IsGroup(groups[i], rows);
      }
      forall r | r in rest ensures exists i :: 0 <= i < n && groups[..n][i].deviceKey == DeviceKey(r) {
        var i :| 0 <= i < |groups| && groups[i].deviceKey == DeviceKey(r);
        assert groups[..n][i].deviceKey == DeviceKey(r);
      }
      CountsAddUp(groups[..n], rest);
    }
  }

  // ----- the fold -----

  datatype MonthResult = MonthResult(rows: seq<Row>, groups: seq<Group>)

  function RowsOf(months: seq<MonthResult>): seq<Row> {
    if months == [] then [] else RowsOf(months[..|months| - 1]) + months[|months| - 1].rows
  }

  // Each month's query was answered with what GROUP BY returns.
  ghost predicate Answered(months: seq<MonthResult>) {
    forall i :: 0 <= i < |months| ==> IsGroupBy(months[i].groups, months[i].rows)
  }

  // The entry of a key after its rows `own`; a key without rows has no entry.
  ghost predicate Entry(aggregated: map<string, Group>, k: string, own: seq<Row>) {
    if own == [] then k !in aggregated
    else && k in aggregated && aggregated[k].deviceKey == k && aggregated[k].messageCount == |own|
         && IsLatest(aggregated[k].lastSeen, own) && Represents(aggregated[k].sourceIp, aggregated[k].host, own)
  }

  // The rows of key k in the finished months, and those of the current month if its group was folded in.
  function Folded(done: seq<Row>, month: MonthResult, j: nat, k: string): seq<Row>
    requires j <= |month.groups|
  {
    Select(done, DeviceKey, k) + if exists i :: 0 <= i < j && month.groups[i].deviceKey == k then Select(month.rows, DeviceKey, k) else []
  }

  ghost predicate Folding(aggregated: map<string, Group>, done: seq<Row>, month: MonthResult, j: nat)
    requires j <= |month.groups|
  {
    forall k: string :: Entry(aggregated, k, Folded(done, month, j, k))
  }

  function FoldGroup(existing: Option<Group>, g: Group): Group {
    match existing
    case None => g
    case Some(e) =>
      var sum := e.(messageCount := e.messageCount + g.messageCount);
      if Lex.Lt(e.lastSeen, g.lastSeen) then sum.(lastSeen := g.lastSeen, host := g.host, sourceIp := g.sourceIp) else sum
  }

  function Find(aggregated: map<string, Group>, k: string): Option<Group> {
    if k in aggregated then Some(aggregated[k]) else None
  }

  lemma {:induction false} LatestOfBoth(t: string, a: seq<Row>, u: string, b: seq<Row>)
    requires IsLatest(t, a) && IsLatest(u, b)
    ensures IsLatest(if Lex.Lt(t, u) then u else t, a + b)
  {
    hide Lex.Lt;
    var m := if Lex.Lt(t, u) then u else t;
    Lex.Trichotomy(t, u);
    forall r | r in a + b ensures Lex.Leq(r.receiptTime, m) {
      if r in a && Lex.Lt(t, u) && r.receiptTime != t {
        Lex.Transitive(r.receiptTime, t, u);
      } else if r in b && Lex.Lt(u, t) && r.receiptTime != u {
        Lex.Transitive(r.receiptTime, u, t);
      }
    }
    if Lex.Lt(t, u) {
      var r :| r in b && r.receiptTime == u;
      assert r in a + b;
    } else {
      var r :| r in a && r.receiptTime == t;
      assert r in a + b;
    }
  }

  lemma {:induction false} RepresentsMore(ip: string, host: Option<string>, a: seq<Row>, b: seq<Row>)
    requires Represents(ip, host, a) || Represents(ip, host, b)
    ensures Represents(ip, host, a + b)
  {
    var r :| (r in a || r in b) && r.sourceIp == ip && r.fields.host == host;
    assert r in a + b;
  }

  // Folding one group into the entry of its key.
  lemma {:induction false} GroupFolded(aggregated: map<string, Group>, k: string, own: seq<Row>, g: Group, rows: seq<Row>)
    requires Entry(aggregated, k, own) && IsGroup(g, rows) && g.deviceKey == k
    ensures Entry(aggregated[k := FoldGroup(Find(aggregated, k), g)], k, own + Select(rows, DeviceKey, k))
  {
    hide Lex.Lt, IsLatest, Represents, DeviceKey, Select;
    var more := Select(rows, DeviceKey, k);
    if own == [] {
      assert own + more == more;
    } else {
      var e := aggregated[k];
      LatestOfBoth(e.lastSeen, own, g.lastSeen, more);
      RepresentsMore(e.sourceIp, e.host, own, more);
      RepresentsMore(g.sourceIp, g.host, own, more);
    }
  }

  lemma {:induction false} FoldStep(aggregated: map<string, Group>, done: seq<Row>, month: MonthResult, j: nat)
    requires j < |month.groups| && Folding(aggregated, done, month, j) && IsGroupBy(month.groups, month.rows)
    ensures var g := month.groups[j];
            Folding(aggregated[g.deviceKey := FoldGroup(Find(aggregated, g.deviceKey), g)], done, month, j + 1)
  {
    hide FoldGroup, IsLatest, Represents, DeviceKey, Select;
    var g := month.groups[j];
    var aggregated' := aggregated[g.deviceKey := FoldGroup(Find(aggregated, g.deviceKey), g)];
    var j' := j + 1;
    forall k: string ensures Entry(aggregated', k, Folded(done, month, j', k)) {
      assert Entry(aggregated, k, Folded(done, month, j, k));
      if k == g.deviceKey {
        assert IsGroup(g, month.rows);
        GroupFolded(aggregated, k, Folded(done, month, j, k), g, month.rows);
        assert Folded(done, month, j, k) == Select(done, DeviceKey, k);
        assert month.groups[j].deviceKey == k;
      } else {
        assert Folded(done, month, j', k) == Folded(done, month, j, k);
      }
    }
  }

  // After the last group of a month, all its rows are in.
  lemma {:induction false} MonthFolded(aggregated: map<string, Group>, done: seq<Row>, month: MonthResult, next: MonthResult)
    requires Folding(aggregated, done, month, |month.groups|) && IsGroupBy(month.groups, month.rows)
    ensures Folding(aggregated, done + month.rows, next, 0)
  {
    hide IsLatest, Represents, DeviceKey, IsGroup;
    forall k: string ensures Entry(aggregated, k, Folded(done + month.rows, next, 0, k)) {
      SelectConcat(done, month.rows, DeviceKey, k);
      assert Entry(aggregated, k, Folded(done, month, |month.groups|, k));
      if !exists i :: 0 <= i < |month.groups| && month.groups[i].deviceKey == k {
        SelectNone(month.rows, DeviceKey, k);
      }
      assert Folded(done + month.rows, next, 0, k) == Folded(done, month, |month.groups|, k);
    }
  }

  function Values(order: seq<string>, aggregated: map<string, Group>): (groups: seq<Group>)
    requires forall k :: k in order ==> k in aggregated
    ensures |groups| == |order|
    ensures forall i :: 0 <= i < |order| ==> groups[i] == aggregated[order[i]]
  {
    seq(|order|, i requires 0 <= i < |order| => aggregated[order[i]])
  }

  // The dictionary's keys in insertion order.
  ghost predicate KeysInOrder(order: seq<string>, aggregated: map<string, Group>) {
    && (forall i, j :: 0 <= i < j < |order| ==> order[i] != order[j])
    && (forall k :: k in order ==> k in aggregated)
    && (forall k :: k in aggregated ==> k in order)
  }

  lemma {:induction false} FoldedIsGroupBy(order: seq<string>, aggregated: map<string, Group>, done: seq<Row>, month: MonthResult)
    requires KeysInOrder(order, aggregated) && Folding(aggregated, done, month, 0)
    ensures IsGroupBy(Values(order, aggregated), done)
  {
    hide IsLatest, Represents, DeviceKey;
    var groups := Values(order, aggregated);
    forall i | 0 <= i < |order| ensures IsGroup(groups[i], done) && groups[i].deviceKey == order[i] {
      assert order[i] in order;
      assert Entry(aggregated, order[i], Folded(done, month, 0, order[i]));
      assert Folded(done, month, 0, order[i]) == Select(done, DeviceKey, order[i]);
    }
    forall r | r in done ensures exists i :: 0 <= i < |groups| && groups[i].deviceKey == DeviceKey(r) {
      var k := DeviceKey(r);
      assert Entry(aggregated, k, Folded(done, month, 0, k));
      SelectIn(done, DeviceKey, k);
      assert r in Select(done, DeviceKey, k);
      var i :| 0 <= i < |order| && order[i] == k;
      assert groups[i].deviceKey == k;
    }
  }

  // Sorting the groups keeps them a GROUP BY result.
  lemma {:induction false} SortedGroupBy(groups: seq<Group>, rows: seq<Row>)
    requires IsGroupBy(groups, rows)
    ensures IsGroupBy(SortDesc(groups, LastSeen), rows)
  {
    hide IsGroup, DeviceKey, SortDesc, Distinct;
    var b := SortDesc(groups, LastSeen);
    SortSorts(groups, LastSeen);
    forall i | 0 <= i < |b| ensures IsGroup(b[i], rows) {
      assert b[i] in multiset(groups);
    }
    forall r | r in rows ensures exists i :: 0 <= i < |b| && b[i].deviceKey == DeviceKey(r) {
      var j :| 0 <= j < |groups| && groups[j].deviceKey == DeviceKey(r);
      assert groups[j] in multiset(b);
    }
    forall k ensures |Select(b, KeyOf, k)| <= 1 {
      DistinctOnce(groups, KeyOf, k);
      PermutedSelection(groups, b, k);
    }
    OnceDistinct(b, KeyOf);
  }

  lemma {:induction false} PermutedSelection(a: seq<Group>, b: seq<Group>, k: string)
    requires multiset(a) == multiset(b)
    ensures |Select(a, KeyOf, k)| == |Select(b, KeyOf, k)|
  {
    var sa, sb := multiset(Select(a, KeyOf, k)), multiset(Select(b, KeyOf, k));
    forall x ensures sa[x] == sb[x] {
      SelectIn(a, KeyOf, k);
      SelectIn(b, KeyOf, k);
      if KeyOf(x) == k {
        SelectMultiplicity(a, KeyOf, x);
        SelectMultiplicity(b, KeyOf, x);
      } else {
        assert x !in Select(a, KeyOf, k) && x !in Select(b, KeyOf, k);
      }
    }
    assert sa == sb;
    assert |sa| == |sb|;
  }

  // The groups in the order in which they are read.
  function AllGroups(months: seq<MonthResult>): seq<Group> {
    if months == [] then [] else AllGroups(months[..|months| - 1]) + months[|months| - 1].groups
  }

  // Address and host are taken from the first group of the key that has its latest time.
  ghost predicate NamedBy(g: Group, seen: seq<Group>, q: nat)
    requires q < |seen|
  {
    && seen[q].deviceKey == g.deviceKey && seen[q].lastSeen == g.lastSeen
    && seen[q].sourceIp == g.sourceIp && seen[q].host == g.host
    && forall r :: 0 <= r < q && seen[r].deviceKey == g.deviceKey ==> Lex.Lt(seen[r].lastSeen, g.lastSeen)
  }

  ghost predicate NamedIn(g: Group, seen: seq<Group>) {
    exists q: nat :: q < |seen| && NamedBy(g, seen, q)
  }

  // Every entry is named by a group, no group of its key is later, and no group has no entry.
  ghost predicate Named(aggregated: map<string, Group>, seen: seq<Group>) {
    && (forall k :: k in aggregated ==> aggregated[k].deviceKey == k && NamedIn(aggregated[k], seen))
    && (forall q :: 0 <= q < |seen| ==>
          seen[q].deviceKey in aggregated && Lex.Leq(seen[q].lastSeen, aggregated[seen[q].deviceKey].lastSeen))
  }

  lemma {:induction false} StillNamed(g: Group, seen: seq<Group>, more: Group, q: nat)
    requires q < |seen| && NamedBy(g, seen, q)
    ensures NamedBy(g, seen + [more], q)
  {
    hide Lex.Lt;
  }

  // The new group takes over when it is later than all groups of its key before it.
  lemma {:induction false} NewlyNamed(aggregated: map<string, Group>, seen: seq<Group>, g: Group)
    requires Named(aggregated, seen)
    ensures var e := FoldGroup(Find(aggregated, g.deviceKey), g);
            e.deviceKey == g.deviceKey && NamedIn(e, seen + [g])
    ensures Lex.Leq(g.lastSeen, FoldGroup(Find(aggregated, g.deviceKey), g).lastSeen)
  {
    hide Lex.Lt;
    var k := g.deviceKey;
    var e := FoldGroup(Find(aggregated, k), g);
    if k in aggregated {
      Lex.Trichotomy(aggregated[k].lastSeen, g.lastSeen);
    }
    if k in aggregated && !Lex.Lt(aggregated[k].lastSeen, g.lastSeen) {
      var q: nat :| q < |seen| && NamedBy(aggregated[k], seen, q);
      StillNamed(aggregated[k], seen, g, q);
      assert NamedBy(e, seen + [g], q);
    } else {
      forall r | 0 <= r < |seen| && seen[r].deviceKey == k ensures Lex.Lt(seen[r].lastSeen, g.lastSeen) {
        if seen[r].lastSeen != aggregated[k].lastSeen {
          Lex.Transitive(seen[r].lastSeen, aggregated[k].lastSeen, g.lastSeen);
        }
      }
      assert NamedBy(e, seen + [g], |seen|);
    }
  }

  lemma {:induction false} FoldNamed(aggregated: map<string, Group>, seen: seq<Group>, g: Group)
    requires Named(aggregated, seen)
    ensures Named(aggregated[g.deviceKey := FoldGroup(Find(aggregated, g.deviceKey), g)], seen + [g])
  {
    hide Lex.Lt, FoldGroup, NamedBy;
    var k, seen' := g.deviceKey, seen + [g];
    var e := FoldGroup(Find(aggregated, k), g);
    var aggregated' := aggregated[k := e];
    NewlyNamed(aggregated, seen, g);
    forall c | c in aggregated' ensures aggregated'[c].deviceKey == c && NamedIn(aggregated'[c], seen') {
      if c != k {
        var q: nat :| q < |seen| && NamedBy(aggregated[c], seen, q);
        StillNamed(aggregated[c], seen, g, q);
      }
    }
    forall q | 0 <= q < |seen'|
      ensures seen'[q].deviceKey in aggregated' && Lex.Leq(seen'[q].lastSeen, aggregated'[seen'[q].deviceKey].lastSeen)
    {
      if q < |seen| {
        assert seen'[q] == seen[q];
        FoldIsLater(aggregated, g);
        if seen[q].deviceKey == k {
          LeqTransitive(seen[q].lastSeen, aggregated[k].lastSeen, e.lastSeen);
        }
      }
    }
  }

  lemma {:induction false} FoldIsLater(aggregated: map<string, Group>, g: Group)
    ensures g.deviceKey in aggregated ==>
              Lex.Leq(aggregated[g.deviceKey].lastSeen, FoldGroup(Find(aggregated, g.deviceKey), g).lastSeen)
  {
    hide Lex.Lt;
  }

  lemma {:induction false} LeqTransitive(a: string, b: string, c: string)
    requires Lex.Leq(a, b) && Lex.Leq(b, c)
    ensures Lex.Leq(a, c)
  {
    hide Lex.Lt;
    if a != b && b != c {
      Lex.Transitive(a, b, c);
    }
  }

  // The name of every listed device.
  ghost predicate AllNamed(devices: seq<Group>, seen: seq<Group>) {
    forall i :: 0 <= i < |devices| ==> NamedIn(devices[i], seen)
  }

  lemma {:induction false} ValuesNamed(order: seq<string>, aggregated: map<string, Group>, seen: seq<Group>, devices: seq<Group>)
    requires Named(aggregated, seen) && KeysInOrder(order, aggregated)
    requires multiset(devices) == multiset(Values(order, aggregated))
    ensures AllNamed(devices, seen)
  {
    hide NamedIn;
    forall i | 0 <= i < |devices| ensures NamedIn(devices[i], seen) {
      assert devices[i] in multiset(Values(order, aggregated));
      var j :| 0 <= j < |order| && Values(order, aggregated)[j] == devices[i];
      assert order[j] in order;
    }
  }

  /** Folding the months, in whatever order they come, gives what one GROUP BY over all their rows
      would: one entry a device, its count and its latest time right. Address and host are those of
      the first group that has this time. */
  method ListDevices(months: seq<MonthResult>) returns (devices: seq<Group>)
    requires Answered(months)
    ensures IsGroupBy(devices, RowsOf(months))
    ensures AllNamed(devices, AllGroups(months))
    ensures Descending(devices, LastSeen)
  {
    hide IsGroupBy, Folding, FoldGroup, SortDesc, Descending, KeysInOrder, Named, AllNamed;
    var order: seq<string>, aggregated: map<string, Group> := [], map[];
    ghost var nothing := MonthResult([], []);
    StartFolding(nothing);
    ghost var seen: seq<Group> := [];
    for i := 0 to |months|
      invariant KeysInOrder(order, aggregated)
      invariant Folding(aggregated, RowsOf(months[..i]), nothing, 0)
      invariant seen == AllGroups(months[..i]) && Named(aggregated, seen)
    {
      var groups := months[i].groups;
      ghost var done := RowsOf(months[..i]);
      OtherMonth(aggregated, done, nothing, months[i]);
      for j := 0 to |groups|
        invariant KeysInOrder(order, aggregated)
        invariant Folding(aggregated, done, months[i], j)
        invariant seen == AllGroups(months[..i]) + groups[..j] && Named(aggregated, seen)
      {
        var g := groups[j];
        FoldStep(aggregated, done, months[i], j);
        FoldNamed(aggregated, seen, g);
        seen := seen + [g];
        InsertKey(order, aggregated, g.deviceKey, FoldGroup(Find(aggregated, g.deviceKey), g));
        if g.deviceKey !in aggregated {
          order := order + [g.deviceKey];
        }
        aggregated := aggregated[g.deviceKey := FoldGroup(Find(aggregated, g.deviceKey), g)];
      }
      MonthFolded(aggregated, done, months[i], nothing);
      assert months[..i + 1][..i] == months[..i];
    }
    assert months[..|months|] == months;
    InOrderKeys(order, aggregated);
    FoldedIsGroupBy(order, aggregated, RowsOf(months), nothing);
    devices := SortDesc(Values(order, aggregated), LastSeen);
    SortSorts(Values(order, aggregated), LastSeen);
    ValuesNamed(order, aggregated, seen, devices);
    SortedGroupBy(Values(order, aggregated), RowsOf(months));
  }

  lemma {:induction false} StartFolding(month: MonthResult)
    ensures Folding(map[], [], month, 0) && KeysInOrder([], map[]) && Named(map[], [])
  {
    forall k: string ensures Entry(map[], k, Folded([], month, 0, k)) {
    }
  }

  lemma {:induction false} OtherMonth(aggregated: map<string, Group>, done: seq<Row>, month: MonthResult, next: MonthResult)
    requires Folding(aggregated, done, month, 0)
    ensures Folding(aggregated, done, next, 0)
  {
    hide Entry, DeviceKey;
    forall k: string ensures Entry(aggregated, k, Folded(done, next, 0, k)) {
      assert Entry(aggregated, k, Folded(done, month, 0, k));
      assert Folded(done, month, 0, k) == Folded(done, next, 0, k);
    }
  }

  lemma {:induction false} InsertKey(order: seq<string>, aggregated: map<string, Group>, k: string, g: Group)
    requires KeysInOrder(order, aggregated)
    ensures KeysInOrder(if k in aggregated then order else order + [k], aggregated[k := g])
  {
  }

  lemma {:induction false} InOrderKeys(order: seq<string>, aggregated: map<string, Group>)
    requires KeysInOrder(order, aggregated)
    ensures forall k :: k in order ==> k in aggregated
  {
  }
}
