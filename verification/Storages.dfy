/** What the rows of an archive under construction stand for: contents in the store, named by digest. */
module Storages {
  import opened Results
  import opened ByteLayout
  import opened Numbers

  // ----- The store

  /** A hint of a content is a file extension or a marker. Text extensions are the numbers from 0 on, in
      the order of their strings; all other hints are negative. */
  const PACK_HINT := -1
  const SKELETON_HINT := -2
  const SYMLINK_HINT := -3
  const CONTAINER_HINT := -4
  const OPAQUE_HINT := -5
  const DICTIONARY_HINT := -6

  /** A content: its bytes, its hints, and per digest the Deflate streams that it was met as. */
  datatype Candidate = Candidate(raw: Bytes, hints: set<int>, deflates: map<int, (Bytes, nat)>)

  type Store = map<int, Candidate>

  type Digest = Bytes -> int

  ghost predicate CollisionFree(sha: Digest) {
    forall a, b :: sha(a) == sha(b) ==> a == b
  }

  ghost predicate Digested(cands: Store, sha: Digest) {
    forall h :: h in cands ==> sha(cands[h].raw) == h
  }

  lemma SameDigest(a: Bytes, b: Bytes, sha: Digest)
    requires CollisionFree(sha) && sha(a) == sha(b)
    ensures a == b
  {
  }

  function WithHint(hints: set<int>, hint: Option<int>): set<int> {
    if hint.Some? then hints + {hint.value} else hints
  }

  /** `add_content`: the store with the content under its digest `h`. */
  function Added(cands: Store, h: int, raw: Bytes, hint: Option<int>, stream: Option<(int, Bytes)>): Store {
    var c := if h in cands then cands[h] else Candidate(raw, {}, map[]);
    var hinted := c.(hints := WithHint(c.hints, hint));
    if stream.None? then cands[h := hinted]
    else
      var sh, bytes := stream.value.0, stream.value.1;
      var slot := if sh in c.deflates then (c.deflates[sh].0, c.deflates[sh].1 + 1) else (bytes, 1);
      cands[h := hinted.(deflates := c.deflates[sh := slot])]
  }

  /** Only the content's own entry changes: its bytes are those it had, its hints gain the new one, and of its
      streams only the new one counts one more. */
  lemma AddedExact(cands: Store, h: int, raw: Bytes, hint: Option<int>, stream: Option<(int, Bytes)>)
    ensures var out := Added(cands, h, raw, hint, stream);
            && out.Keys == cands.Keys + {h} && (forall x :: x in cands && x != h ==> out[x] == cands[x])
            && out[h].raw == (if h in cands then cands[h].raw else raw)
            && (forall x :: x in out[h].hints <==> (h in cands && x in cands[h].hints) || hint == Some(x))
            && (forall s :: s in out[h].deflates <==>
                  (h in cands && s in cands[h].deflates) || (stream.Some? && stream.value.0 == s))
            && (forall s :: h in cands && s in cands[h].deflates ==>
                  && out[h].deflates[s].0 == cands[h].deflates[s].0
                  && out[h].deflates[s].1
                     == cands[h].deflates[s].1 + if stream.Some? && stream.value.0 == s then 1 else 0)
            && forall s :: s in out[h].deflates && !(h in cands && s in cands[h].deflates) ==>
                 out[h].deflates[s] == (stream.value.1, 1)
  {
  }

  predicate HasText(hints: set<int>) {
    exists x :: x in hints && x >= 0
  }

  lemma {:induction false} LeastText(hints: set<int>) returns (x: int)
    requires HasText(hints)
    ensures x in hints && x >= 0 && forall y :: y in hints && y >= 0 ==> x <= y
    decreases |hints|
  {
    x :| x in hints && x >= 0;
    if HasText(hints - {x}) {
      var y := LeastText(hints - {x});
      assert forall z :: z in hints && z >= 0 ==> z == x || z in hints - {x};
      x := if y < x then y else x;
    } else {
      assert forall z :: z in hints && z >= 0 ==> z == x || z in hints - {x};
    }
  }

  /** `next(x for x in sorted(hints) if x in TEXT_EXT)` */
  function FirstText(hints: set<int>): (x: int)
    requires HasText(hints)
    ensures x in hints && x >= 0 && forall y :: y in hints && y >= 0 ==> x <= y
  {
    assert exists x :: x in hints && x >= 0 && forall y :: y in hints && y >= 0 ==> x <= y by {
      var x := LeastText(hints);
    }
    var x :| x in hints && x >= 0 && forall y :: y in hints && y >= 0 ==> x <= y;
    x
  }

  // ----- Storages of rows

  /** A data extent of a sparse file, cut into contents. */
  datatype Extent = Extent(off: nat, hs: seq<int>)

  /** A member of a nested ZIP: the content, and whether it was stored or deflated at a level. */
  datatype Member = Member(h: int, stored: bool, level: int)

  /** Column 6 of a row while building. `Chunks` stands for S_CHUNKS and S_CDC, which both join their
      contents; `Recipe` is the recipe that an S_VZIP row points at; `Link` is the row that a hard link
      names; directories have no storage. */
  datatype Ref =
    | Bare
    | Link(owner: nat)
    | BlobRef(h: int)
    | PackRef(h: int, off: nat, len: nat)
    | Chunks(hs: seq<int>)
    | Sparse(size: nat, extents: seq<Extent>)
    | Recipe(skeleton: int, lens: seq<nat>, members: seq<Member>)

  datatype FileRow = FileRow(kind: int, ref: Ref)

  function ExtentDigests(extents: seq<Extent>): seq<int> {
    if extents == [] then [] else extents[0].hs + ExtentDigests(extents[1..])
  }

  function MemberDigests(members: seq<Member>): (r: seq<int>)
    ensures |r| == |members|
  {
    seq(|members|, k requires 0 <= k < |members| => members[k].h)
  }

  /** The digests that a storage names, in order: those that the finished index must map. */
  function Names(ref: Ref): seq<int> {
    match ref
    case Bare => []
    case Link(_) => []
    case BlobRef(h) => [h]
    case PackRef(h, _, _) => [h]
    case Chunks(hs) => hs
    case Sparse(_, extents) => ExtentDigests(extents)
    case Recipe(skeleton, _, members) => [skeleton] + MemberDigests(members)
  }

  /** The contents of a list of digests; none if one of them is not in the store. */
  function Contents(hs: seq<int>, cands: Store): (r: Option<seq<Bytes>>)
    ensures r.Some? ==> |r.value| == |hs|
    ensures r.Some? <==> forall h :: h in hs ==> h in cands
  {
    if forall h :: h in hs ==> h in cands then
      Some(seq(|hs|, k requires 0 <= k < |hs| => assert hs[k] in hs; cands[hs[k]].raw))
    else None
  }

  // ----- Reading

  /** Regeneration of a raw Deflate stream at a level. */
  type Deflate = (Bytes, int) -> Bytes

  function Join(parts: seq<Bytes>): Bytes {
    if parts == [] then [] else parts[0] + Join(parts[1..])
  }

  /** `buf[q:q + len(b)] = b` */
  function Overwrite(buf: Bytes, q: nat, b: Bytes): Bytes {
    buf[..Clip(q, |buf|)] + b + buf[Clip(q + |b|, |buf|)..]
  }

  function Overlay(buf: Bytes, extents: seq<Extent>, parts: seq<Bytes>): Bytes
    requires |parts| == |ExtentDigests(extents)|
    decreases |extents|
  {
    if extents == [] then buf
    else
      var n := |extents[0].hs|;
      Overlay(Overwrite(buf, extents[0].off, Join(parts[..n])), extents[1..], parts[n..])
  }

  function Zeros(n: nat): Bytes {
    seq(n, _ => 0)
  }

  /** The skeleton's literals and the members' streams, in turn. */
  function Weave(skeleton: Bytes, lens: seq<nat>, streams: seq<Bytes>): Bytes
    requires |lens| == |streams| + 1
  {
    var n := Clip(lens[0], |skeleton|);
    if streams == [] then skeleton[..n]
    else skeleton[..n] + streams[0] + Weave(skeleton[n..], lens[1..], streams[1..])
  }

  function Streams(members: seq<Member>, parts: seq<Bytes>, deflate: Deflate): (r: seq<Bytes>)
    requires |parts| == |members|
    ensures |r| == |members|
  {
    seq(|members|, k requires 0 <= k < |members| =>
      if members[k].stored then parts[k] else deflate(parts[k], members[k].level))
  }

  /** A storage's bytes from the contents that it names. */
  function Assemble(ref: Ref, parts: seq<Bytes>, deflate: Deflate): Option<Bytes>
    requires |parts| == |Names(ref)|
  {
    match ref
    case Bare => None
    case Link(_) => None
    case BlobRef(_) => Some(parts[0])
    case PackRef(_, off, len) =>
      if off + len <= |parts[0]| then Some(parts[0][off..off + len]) else None
    case Chunks(_) => Some(Join(parts))
    case Sparse(size, extents) => Some(Overlay(Zeros(size), extents, parts))
    case Recipe(_, lens, members) =>
      if |lens| == |members| + 1 then Some(Weave(parts[0], lens, Streams(members, parts[1..], deflate))) else None
  }

  /** The bytes that a row with a storage of its own stands for; none if a content is missing. */
  function Resolve(row: FileRow, cands: Store, deflate: Deflate): Option<Bytes> {
    var parts := Contents(Names(row.ref), cands);
    if parts.Some? then Assemble(row.ref, parts.value, deflate) else None
  }

  /** The row that holds the storage: a hard link's owner, else the row itself. */
  function Holder(files: seq<FileRow>, i: nat): nat
    requires i < |files|
  {
    if files[i].ref.Link? && files[i].ref.owner < |files| then files[i].ref.owner else i
  }

  /** `read` of the i-th row. */
  function Read(files: seq<FileRow>, cands: Store, i: nat, deflate: Deflate): Option<Bytes>
    requires i < |files|
  {
    Resolve(files[Holder(files, i)], cands, deflate)
  }

  /** Every digest that a row names can be mapped: `build` can write the index. */
  ghost predicate Mapped(files: seq<FileRow>, cands: Store) {
    forall row, h :: row in files && h in Names(row.ref) ==> h in cands
  }

  lemma SameContents(hs: seq<int>, before: Store, cands: Store)
    requires forall h :: h in hs ==> h in before
    requires forall h :: h in before && h in cands ==> cands[h].raw == before[h].raw
    ensures (forall h :: h in hs ==> h in cands) ==> Contents(hs, cands) == Contents(hs, before)
  {
    if forall h :: h in hs ==> h in cands {
      var a, b := Contents(hs, cands).value, Contents(hs, before).value;
      forall k | 0 <= k < |hs| ensures a[k] == b[k] {
        var h := hs[k];
        assert h in hs && h in before && h in cands;
      }
      assert a == b;
    }
  }

  /** A store whose contents keep their bytes gives a row the same bytes as long as it has them all. */
  lemma ResolveAfter(row: FileRow, before: Store, cands: Store, deflate: Deflate)
    requires Resolve(row, before, deflate).Some?
    requires forall h :: h in before && h in cands ==> cands[h].raw == before[h].raw
    ensures forall h :: h in Names(row.ref) ==> h in before
    ensures Resolve(row, cands, deflate) ==
            if forall h :: h in Names(row.ref) ==> h in cands then Resolve(row, before, deflate) else None
  {
    hide Names, Assemble;
    SameContents(Names(row.ref), before, cands);
  }
}
