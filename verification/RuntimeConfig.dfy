/**
  The configuration an edge node runs: per camera a document over its portals, and one version over all cameras.
  Both are digests of documents whose lists were sorted by id, so that node and server agree on them.
 */
module RuntimeConfig {
  import opened Base
  import opened Lists

  datatype Portal = Portal(
    id: Id, title: string, x1: real, y1: real, x2: real, y2: real,
    inside: string, enabled: bool, deadband: real, revision: int)

  datatype Camera = Camera(id: Id, assignment: Id, portals: seq<Portal>)

  // SHA-256 over the canonical JSON of a document, taken to be collision free.
  datatype Revision = Revision(camera: Id, assignment: Id, portals: seq<Portal>)

  datatype Entry = Entry(camera: Id, revision: Revision)

  datatype Version = Version(cameras: seq<Entry>)

  // -------------------------------------------------------------------------------- documents

  predicate PortalBefore(p: Portal, q: Portal) { p.id <= q.id }

  predicate EntryBefore(d: Entry, e: Entry) { d.camera <= e.camera }

  function ConfigurationRevision(c: Camera): Revision { Revision(c.id, c.assignment, Sort(c.portals, PortalBefore)) }

  function Entries(cameras: seq<Camera>): (r: seq<Entry>)
    ensures |r| == |cameras|
    ensures forall i :: 0 <= i < |r| ==> r[i] == Entry(cameras[i].id, ConfigurationRevision(cameras[i]))
  {
    seq(|cameras|, i requires 0 <= i < |cameras| => Entry(cameras[i].id, ConfigurationRevision(cameras[i])))
  }

  function SnapshotVersion(cameras: seq<Camera>): Version { Version(Sort(Entries(cameras), EntryBefore)) }

  ghost predicate PortalsDiffer(portals: seq<Portal>) {
    forall i, j :: 0 <= i < j < |portals| ==> portals[i].id != portals[j].id
  }

  // One row per camera, and portal ids are a primary key.
  ghost predicate WellFormed(cameras: seq<Camera>) {
    && (forall i, j :: 0 <= i < j < |cameras| ==> cameras[i].id != cameras[j].id)
    && forall i :: 0 <= i < |cameras| ==> PortalsDiffer(cameras[i].portals)
  }

  ghost predicate SameCamera(a: Camera, b: Camera) {
    a.id == b.id && a.assignment == b.assignment && forall p :: p in a.portals <==> p in b.portals
  }

  ghost predicate Occurs(c: Camera, cameras: seq<Camera>) {
    exists j :: 0 <= j < |cameras| && SameCamera(c, cameras[j])
  }

  ghost predicate Covers(a: seq<Camera>, b: seq<Camera>) { forall i :: 0 <= i < |a| ==> Occurs(a[i], b) }

  // Two lists without repeats sort to the same one exactly when they have the same members.
  lemma SortedAlikeIff<T(!new)>(a: seq<T>, b: seq<T>, before: (T, T) -> bool)
    requires NoRepeats(a) && NoRepeats(b) && TotalOrder(before) && Antisymmetric(a, before)
    ensures Sort(a, before) == Sort(b, before) <==> forall x :: x in a <==> x in b
  {
    SortMembers(a, before);
    SortMembers(b, before);
    if forall x :: x in a <==> x in b {
      SameMembersCountAlike(a, b);
      SortIgnoresOrder(a, b, before);
    }
  }

  lemma SameRevisionIff(a: Camera, b: Camera)
    requires PortalsDiffer(a.portals) && PortalsDiffer(b.portals)
    ensures ConfigurationRevision(a) == ConfigurationRevision(b) <==> SameCamera(a, b)
  {
    SortedAlikeIff(a.portals, b.portals, PortalBefore);
  }

  lemma SameEntryIff(a: seq<Camera>, i: nat, b: seq<Camera>, j: nat)
    requires WellFormed(a) && WellFormed(b) && i < |a| && j < |b|
    ensures Entries(a)[i] == Entries(b)[j] <==> SameCamera(a[i], b[j])
  {
    SameRevisionIff(a[i], b[j]);
  }

  ghost predicate Within(a: seq<Entry>, b: seq<Entry>) { forall e :: e in a ==> e in b }

  lemma EntriesCover(a: seq<Camera>, b: seq<Camera>)
    requires WellFormed(a) && WellFormed(b) && Within(Entries(a), Entries(b))
    ensures Covers(a, b)
  {
    forall i | 0 <= i < |a| ensures Occurs(a[i], b) {
      assert Entries(a)[i] in Entries(b);
      var j :| 0 <= j < |b| && Entries(b)[j] == Entries(a)[i];
      SameEntryIff(a, i, b, j);
    }
  }

  lemma CoveredEntries(a: seq<Camera>, b: seq<Camera>)
    requires WellFormed(a) && WellFormed(b) && Covers(a, b)
    ensures Within(Entries(a), Entries(b))
  {
    forall e | e in Entries(a) ensures e in Entries(b) {
      var i :| 0 <= i < |a| && Entries(a)[i] == e;
      assert Occurs(a[i], b);
      var j :| 0 <= j < |b| && SameCamera(a[i], b[j]);
      SameEntryIff(a, i, b, j);
    }
  }

  lemma CamerasDiffer(entries: seq<Entry>)
    requires forall i, j :: 0 <= i < j < |entries| ==> entries[i].camera != entries[j].camera
    ensures NoRepeats(entries) && Antisymmetric(entries, EntryBefore)
  {
    forall x, y | x in entries && y in entries && x.camera == y.camera ensures x == y {
      var i :| 0 <= i < |entries| && entries[i] == x;
      var j :| 0 <= j < |entries| && entries[j] == y;
      assert i == j;
    }
  }

  // The version names the configuration: equal exactly when every camera has the same assignment and the same
  // portals, in whatever order the rows were read.
  lemma VersionNamesConfiguration(a: seq<Camera>, b: seq<Camera>)
    requires WellFormed(a) && WellFormed(b)
    ensures SnapshotVersion(a) == SnapshotVersion(b) <==> Covers(a, b) && Covers(b, a)
  {
    CamerasDiffer(Entries(a));
    CamerasDiffer(Entries(b));
    SortedAlikeIff(Entries(a), Entries(b), EntryBefore);
    if SnapshotVersion(a) == SnapshotVersion(b) {
      EntriesCover(a, b);
      EntriesCover(b, a);
    }
    if Covers(a, b) && Covers(b, a) {
      CoveredEntries(a, b);
      CoveredEntries(b, a);
    }
  }
}
