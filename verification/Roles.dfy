/** The marking closure that decides, for one role, which declarations get an encoder and which a decoder. */
module Roles {
  import opened Wrappers
  import opened Schemas
  import opened FixedSizes

  datatype Role = Client | Entry | Edge | Sim | Hub

  /** One pair of roles a message travels, and the kind receiving when that is a hub. */
  datatype Link = Link(from: Role, to: Role, toKind: Option<nat>)

  /** The declarations a declaration names directly, the key of a hub kind included. */
  function Named(d: Decl): seq<nat> {
    if d.HubDecl? then Refs(d.key) + FieldRefs(d.fields) else DeclRefs(d)
  }

  /** That is every name its values are made of, and those in the key of a hub kind. */
  lemma {:induction false} NamedExactly(d: Decl, id: nat)
    ensures id in Named(d) <==> Holds(d, SNamed(id)) || (d.HubDecl? && Within(SNamed(id), d.key))
  {
    RefsExactly(d, id);
    if d.HubDecl? {
      TypeRefsExactly(d.key, id);
    }
  }

  predicate NamedIn(s: Schema) {
    forall id :: 0 <= id < |s| ==> RefsIn(s, Named(s[id]))
  }

  /** A walk along names. */
  predicate IsPath(s: Schema, path: seq<nat>) {
    path != [] && forall k :: 0 <= k < |path| - 1 ==> path[k] < |s| && path[k + 1] in Named(s[path[k]])
  }

  /** `id` is one of `roots`, or named by what they name. */
  ghost predicate Reached(s: Schema, roots: set<nat>, id: nat) {
    exists path :: IsPath(s, path) && path[0] in roots && path[|path| - 1] == id
  }

  /** Whatever a marked declaration names is marked. */
  ghost predicate ClosedMarks(s: Schema, marks: seq<bool>) {
    |marks| == |s| && forall id :: 0 <= id < |s| && marks[id] ==> AllMarked(Named(s[id]), marks)
  }

  ghost predicate AllMarked(ids: seq<nat>, marks: seq<bool>) {
    forall k :: 0 <= k < |ids| ==> ids[k] < |marks| && marks[ids[k]]
  }

  /** Marks closed and holding the roots hold all they reach. */
  lemma {:induction false} ReachedMarked(s: Schema, marks: seq<bool>, roots: set<nat>, path: seq<nat>)
    requires ClosedMarks(s, marks) && IsPath(s, path) && path[0] in roots
    requires forall id :: id in roots ==> id < |marks| && marks[id]
    ensures path[|path| - 1] < |marks| && marks[path[|path| - 1]]
  {
    var n := |path| - 1;
    if n > 0 {
      ReachedMarked(s, marks, roots, path[..n]);
      assert AllMarked(Named(s[path[n - 1]]), marks);
    }
  }

  lemma {:induction false} ReachedNext(s: Schema, roots: set<nat>, id: nat, next: nat)
    requires Reached(s, roots, id) && id < |s| && next in Named(s[id])
    ensures Reached(s, roots, next)
  {
    hide Named;
    var path :| IsPath(s, path) && path[0] in roots && path[|path| - 1] == id;
    var longer := path + [next];
    assert IsPath(s, longer);
  }

  lemma {:induction false} ReachedMore(s: Schema, roots: set<nat>, more: set<nat>, id: nat)
    requires Reached(s, roots, id) && roots <= more
    ensures Reached(s, more, id)
  {
  }

  lemma {:induction false} ReachedRoot(s: Schema, roots: set<nat>, id: nat)
    requires id in roots
    ensures Reached(s, roots, id)
  {
    assert IsPath(s, [id]);
  }

  function Unmarked(marks: seq<bool>): nat {
    if marks == [] then 0 else Unmarked(marks[..|marks| - 1]) + if marks[|marks| - 1] then 0 else 1
  }

  lemma {:induction false} MarkOne(marks: seq<bool>, id: nat)
    requires id < |marks|
    ensures Unmarked(marks[id := true]) == Unmarked(marks) - if marks[id] then 0 else 1
  {
    var n := |marks| - 1;
    if id < n {
      MarkOne(marks[..n], id);
      assert marks[id := true][..n] == marks[..n][id := true];
    } else {
      assert marks[id := true][..n] == marks[..n];
    }
  }

  /** What is marked in `a` is marked in `b`. */
  predicate MarksGrow(a: seq<bool>, b: seq<bool>) {
    |a| == |b| && forall id :: 0 <= id < |a| && a[id] ==> b[id]
  }

  /** Every declaration marked but those in `open` has what it names marked. */
  ghost predicate ClosedBut(s: Schema, marks: seq<bool>, open: set<nat>) {
    |marks| == |s| && forall id :: 0 <= id < |s| && marks[id] && id !in open ==> AllMarked(Named(s[id]), marks)
  }

  /** Everything marked is reached from the roots. */
  ghost predicate MarksReached(s: Schema, marks: seq<bool>, roots: set<nat>) {
    |marks| == |s| && forall id :: 0 <= id < |s| && marks[id] ==> Reached(s, roots, id)
  }

  class Marker {
    const schema: Schema
    var encode: seq<bool>
    var decode: seq<bool>
    /** What each kind of mark started from. */
    ghost var encodeRoots: set<nat>
    ghost var decodeRoots: set<nat>
    /** The declarations whose names are still being marked. */
    ghost var open: set<nat>

    ghost predicate Valid()
      reads this
    {
      && NamedIn(schema)
      && ClosedBut(schema, encode, open) && ClosedBut(schema, decode, open)
      && MarksReached(schema, encode, encodeRoots) && MarksReached(schema, decode, decodeRoots)
    }

    /** Every root is marked. */
    ghost predicate RootsMarked()
      reads this
    {
      && (forall id :: id in encodeRoots ==> id < |encode| && encode[id])
      && forall id :: id in decodeRoots ==> id < |decode| && decode[id]
    }

    constructor (schema: Schema)
      requires NamedIn(schema)
      ensures Valid() && this.schema == schema && open == {} && encodeRoots == {} && decodeRoots == {}
      ensures forall id :: 0 <= id < |schema| ==> !encode[id] && !decode[id]
    {
      this.schema := schema;
      encode, decode := seq(|schema|, _ => false), seq(|schema|, _ => false);
      encodeRoots, decodeRoots, open := {}, {}, {};
    }

    /** `mark`: marks a declaration and all it names, for encoding, decoding, or both. */
    method Mark(id: nat, enc: bool, dec: bool)
      requires Valid() && id < |schema|
      requires (enc ==> Reached(schema, encodeRoots, id)) && (dec ==> Reached(schema, decodeRoots, id))
      modifies this
      ensures Valid() && open == old(open) && encodeRoots == old(encodeRoots) && decodeRoots == old(decodeRoots)
      ensures MarksGrow(old(encode), encode) && MarksGrow(old(decode), decode)
      ensures (enc ==> encode[id]) && (dec ==> decode[id])
      ensures (!enc ==> encode == old(encode)) && (!dec ==> decode == old(decode))
      decreases Unmarked(encode) + Unmarked(decode)
    {
      hide Named, Reached, Unmarked, NamedIn, ClosedBut, AllMarked;
      if (!enc || encode[id]) && (!dec || decode[id]) {
        return;
      }
      NamesIn(schema, id);
      ghost var outer, encoded, decoded := open, encode, decode;
      MarkOne(encode, id);
      MarkOne(decode, id);
      var named := Named(schema[id]);
      open := open + {id};
      encode := encode[id := encode[id] || enc];
      decode := decode[id := decode[id] || dec];
      assert encode == if enc then encoded[id := true] else encoded;
      assert decode == if dec then decoded[id := true] else decoded;
      Open(schema, encoded, encode, outer, id);
      Open(schema, decoded, decode, outer, id);
      ghost var measure := Unmarked(encode) + Unmarked(decode);
      ghost var encodeSet, decodeSet := encode, decode;
      for k := 0 to |named|
        invariant Valid() && open == outer + {id} && encodeRoots == old(encodeRoots) && decodeRoots == old(decodeRoots)
        invariant MarksGrow(encodeSet, encode) && MarksGrow(decodeSet, decode)
        invariant (!enc ==> encode == encoded) && (!dec ==> decode == decoded)
        invariant enc ==> AllMarked(named[..k], encode)
        invariant dec ==> AllMarked(named[..k], decode)
        invariant Unmarked(encode) + Unmarked(decode) <= measure
      {
        ghost var encodeBefore, decodeBefore := encode, decode;
        if enc {
          ReachedNext(schema, encodeRoots, id, named[k]);
        }
        if dec {
          ReachedNext(schema, decodeRoots, id, named[k]);
        }
        Mark(named[k], enc, dec);
        GrowUnmarked(encodeBefore, encode);
        GrowUnmarked(decodeBefore, decode);
        NextMarked(named, k, encodeBefore, encode);
        NextMarked(named, k, decodeBefore, decode);
      }
      assert named[..|named|] == named;
      Close(schema, encoded, encode, outer, id, enc);
      Close(schema, decoded, decode, outer, id, dec);
      open := outer;
    }

    /** Marks from a declaration on. */
    method MarkFrom(id: nat, enc: bool, dec: bool)
      requires Valid() && RootsMarked() && id < |schema|
      modifies this
      ensures Valid() && RootsMarked() && open == old(open)
      ensures encodeRoots == old(encodeRoots) + (if enc then {id} else {})
      ensures decodeRoots == old(decodeRoots) + (if dec then {id} else {})
      ensures MarksGrow(old(encode), encode) && MarksGrow(old(decode), decode)
      ensures (enc ==> encode[id]) && (dec ==> decode[id])
    {
      hide Reached, NamedIn, ClosedBut;
      ghost var before, after := encodeRoots, encodeRoots + if enc then {id} else {};
      forall j | Reached(schema, encodeRoots, j) ensures Reached(schema, after, j) {
        ReachedMore(schema, encodeRoots, after, j);
      }
      ghost var afterDecode := decodeRoots + if dec then {id} else {};
      forall j | Reached(schema, decodeRoots, j) ensures Reached(schema, afterDecode, j) {
        ReachedMore(schema, decodeRoots, afterDecode, j);
      }
      encodeRoots, decodeRoots := after, afterDecode;
      if enc {
        ReachedRoot(schema, encodeRoots, id);
      }
      if dec {
        ReachedRoot(schema, decodeRoots, id);
      }
      Mark(id, enc, dec);
    }
  }

  /** A declaration being marked may be marked before what it names is. */
  lemma {:induction false} Open(s: Schema, before: seq<bool>, after: seq<bool>, outer: set<nat>, id: nat)
    requires ClosedBut(s, before, outer) && id < |s| && (after == before || after == before[id := true])
    ensures ClosedBut(s, after, outer + {id}) && MarksGrow(before, after) && AllMarked([], after)
  {
  }

  /** Once what it names is marked, or was before, the declaration is done. */
  lemma {:induction false} Close(s: Schema, before: seq<bool>, after: seq<bool>, outer: set<nat>, id: nat, marked: bool)
    requires ClosedBut(s, before, outer) && ClosedBut(s, after, outer + {id}) && MarksGrow(before, after) && id < |s|
    requires if marked then AllMarked(Named(s[id]), after) else after[id] ==> before[id] || id in outer
    ensures ClosedBut(s, after, outer)
  {
  }

  lemma {:induction false} NamesIn(s: Schema, id: nat)
    requires NamedIn(s) && id < |s|
    ensures forall k :: 0 <= k < |Named(s[id])| ==> Named(s[id])[k] < |s|
  {
  }

  lemma {:induction false} GrowUnmarked(a: seq<bool>, b: seq<bool>)
    requires MarksGrow(a, b)
    ensures Unmarked(b) <= Unmarked(a)
  {
    if a != [] {
      GrowUnmarked(a[..|a| - 1], b[..|b| - 1]);
    }
  }

  lemma {:induction false} NextMarked(named: seq<nat>, k: nat, before: seq<bool>, after: seq<bool>)
    requires k < |named| && MarksGrow(before, after)
    ensures AllMarked(named[..k], before) && named[k] < |after| && after[named[k]] ==> AllMarked(named[..k + 1], after)
  {
  }

  // ----- the roles

  predicate Sends(links: seq<Link>, role: Role) {
    exists k :: 0 <= k < |links| && links[k].from == role
  }

  predicate Receives(links: seq<Link>, role: Role) {
    exists k :: 0 <= k < |links| && links[k].to == role
  }

  /** A link's kind is a hub kind, as resolving endpoints checks. */
  predicate LinksOk(s: Schema, links: seq<seq<Link>>) {
    && |links| == |s|
    && forall id, k :: 0 <= id < |s| && 0 <= k < |links[id]| && links[id][k].toKind.Some? ==>
         links[id][k].toKind.value < |s| && s[links[id][k].toKind.value].HubDecl?
  }

  /** A kind is generated with both for hubs, which store its objects, and sims, which cache them. */
  predicate HubRoot(s: Schema, role: Role, id: nat) {
    id < |s| && s[id].HubDecl? && role in {Hub, Sim}
  }

  /** A link by which a role sends to a hub kind, whose key names the object it goes to. */
  predicate SendsTo(s: Schema, links: seq<seq<Link>>, role: Role, id: nat, k: nat)
    requires LinksOk(s, links) && id < |s| && k < |links[id]|
  {
    s[id].MessageDecl? && links[id][k].from == role && links[id][k].toKind.Some?
  }

  function KeyOf(s: Schema, link: Link): SType
    requires link.toKind.Some? && link.toKind.value < |s| && s[link.toKind.value].HubDecl?
  {
    s[link.toKind.value].key
  }

  /** Why a role encodes from a declaration. */
  predicate EncodeReason(s: Schema, links: seq<seq<Link>>, role: Role, id: nat)
    requires LinksOk(s, links)
  {
    || HubRoot(s, role, id)
    || (id < |s| && s[id].MessageDecl? && Sends(links[id], role))
    || exists m, k :: 0 <= m < |s| && 0 <= k < |links[m]| && SendsTo(s, links, role, m, k) && id in Refs(KeyOf(s, links[m][k]))
  }

  predicate DecodeReason(s: Schema, links: seq<seq<Link>>, role: Role, id: nat)
    requires LinksOk(s, links)
  {
    HubRoot(s, role, id) || (id < |s| && s[id].MessageDecl? && Receives(links[id], role))
  }

  /** Those reasons in full: holding a hub kind, sending a message, or naming a hub kind's object by its key. */
  lemma {:induction false} ReasonsExactly(s: Schema, links: seq<seq<Link>>, role: Role, id: nat)
    requires LinksOk(s, links) && id < |s|
    ensures EncodeReason(s, links, role, id) <==>
            || (s[id].HubDecl? && (role.Hub? || role.Sim?))
            || (s[id].MessageDecl? && exists k :: 0 <= k < |links[id]| && links[id][k].from == role)
            || exists m, k :: 0 <= m < |s| && 0 <= k < |links[m]| && s[m].MessageDecl? && links[m][k].from == role &&
                              links[m][k].toKind.Some? && Within(SNamed(id), s[links[m][k].toKind.value].key)
    ensures DecodeReason(s, links, role, id) <==>
            || (s[id].HubDecl? && (role.Hub? || role.Sim?))
            || (s[id].MessageDecl? && exists k :: 0 <= k < |links[id]| && links[id][k].to == role)
  {
    forall m, k | 0 <= m < |s| && 0 <= k < |links[m]| && links[m][k].toKind.Some?
      ensures id in Refs(s[links[m][k].toKind.value].key) <==> Within(SNamed(id), s[links[m][k].toKind.value].key)
    {
      TypeRefsExactly(s[links[m][k].toKind.value].key, id);
    }
  }

  /** No declaration names `id`, as none may a message or a hub kind. */
  ghost predicate Unnamed(s: Schema, id: nat) {
    forall d :: 0 <= d < |s| ==> id !in Named(s[d])
  }

  lemma {:induction false} UnnamedReached(s: Schema, roots: set<nat>, id: nat)
    requires Unnamed(s, id)
    ensures Reached(s, roots, id) <==> id in roots
  {
    forall path | IsPath(s, path) && path[|path| - 1] == id ensures |path| == 1 {
      PathEnds(s, path);
    }
    if id in roots {
      ReachedRoot(s, roots, id);
    }
  }

  lemma {:induction false} PathEnds(s: Schema, path: seq<nat>)
    requires IsPath(s, path) && Unnamed(s, path[|path| - 1])
    ensures |path| == 1
  {
    if |path| > 1 {
      StepNames(s, path, |path| - 2);
    }
  }

  lemma {:induction false} StepNames(s: Schema, path: seq<nat>, k: nat)
    requires IsPath(s, path) && k + 1 < |path|
    ensures !Unnamed(s, path[k + 1])
  {
    assert path[k] < |s| && path[k + 1] in Named(s[path[k]]);
  }

  /** What a role holds, sends, and receives, from what it marks a hub kind or a message for. */
  lemma {:induction false} UnnamedMarks(s: Schema, links: seq<seq<Link>>, role: Role, id: nat,
                                         sent: set<nat>, received: set<nat>, unreached: set<nat>, encode: seq<bool>, decode: seq<bool>)
    requires LinksOk(s, links) && id < |s| && s[id].Unnameable() && Unnamed(s, id)
    requires MarksOf(s, encode, sent + unreached) && MarksOf(s, decode, received + unreached)
    requires RootsReasoned(s, links, role, sent, received) && MessagesMarked(s, links, role, encode, decode, |s|)
    requires HubRoot(s, role, id) ==> encode[id] && decode[id]
    requires forall id: nat :: id in unreached ==> Unreached(s, sent, received, id)
    ensures encode[id] <==> if s[id].HubDecl? then role.Hub? || role.Sim?
                            else exists k :: 0 <= k < |links[id]| && links[id][k].from == role
    ensures decode[id] <==> if s[id].HubDecl? then role.Hub? || role.Sim?
                            else exists k :: 0 <= k < |links[id]| && links[id][k].to == role
  {
    hide Reached, ClosedMarks, Within, Named;
    UnnamedReached(s, sent + unreached, id);
    UnnamedReached(s, received + unreached, id);
    ReasonsExactly(s, links, role, id);
    assert id !in unreached;
    assert MessageMarked(s, links, role, encode, decode, id);
    forall m, k | 0 <= m < |s| && 0 <= k < |links[m]| && links[m][k].toKind.Some?
      ensures !Within(SNamed(id), s[links[m][k].toKind.value].key)
    {
      NamedExactly(s[links[m][k].toKind.value], id);
    }
  }

  /** Message `m` and the keys it is sent by are marked, as are all earlier messages'. */
  ghost predicate MessagesMarked(s: Schema, links: seq<seq<Link>>, role: Role, encode: seq<bool>, decode: seq<bool>, n: nat)
    requires LinksOk(s, links)
  {
    |encode| == |decode| == |s| && forall m :: 0 <= m < |s| && m < n ==> MessageMarked(s, links, role, encode, decode, m)
  }

  ghost predicate MessageMarked(s: Schema, links: seq<seq<Link>>, role: Role, encode: seq<bool>, decode: seq<bool>, m: nat)
    requires LinksOk(s, links) && m < |s| == |encode| == |decode|
  {
    s[m].MessageDecl? ==>
      && (Sends(links[m], role) ==> encode[m]) && (Receives(links[m], role) ==> decode[m])
      && KeysMarked(s, links, role, encode, m, |links[m]|)
  }

  ghost predicate KeysMarked(s: Schema, links: seq<seq<Link>>, role: Role, encode: seq<bool>, m: nat, n: nat)
    requires LinksOk(s, links) && m < |s| && n <= |links[m]|
  {
    forall k :: 0 <= k < n && SendsTo(s, links, role, m, k) ==> AllMarked(Refs(KeyOf(s, links[m][k])), encode)
  }

  /** The roots so far are for a reason. */
  ghost predicate RootsReasoned(s: Schema, links: seq<seq<Link>>, role: Role, encodeRoots: set<nat>, decodeRoots: set<nat>)
    requires LinksOk(s, links)
  {
    && (forall id :: id in encodeRoots ==> EncodeReason(s, links, role, id))
    && forall id :: id in decodeRoots ==> DecodeReason(s, links, role, id)
  }

  lemma {:induction false} MessagesGrow(s: Schema, links: seq<seq<Link>>, role: Role, e: seq<bool>, d: seq<bool>, e': seq<bool>, d': seq<bool>, n: nat)
    requires LinksOk(s, links) && MessagesMarked(s, links, role, e, d, n) && MarksGrow(e, e') && MarksGrow(d, d')
    ensures MessagesMarked(s, links, role, e', d', n)
  {
    forall m | 0 <= m < |s| && m < n ensures MessageMarked(s, links, role, e', d', m) {
      if s[m].MessageDecl? {
        assert MessageMarked(s, links, role, e, d, m);
        KeysGrow(s, links, role, e, e', m, |links[m]|);
      }
    }
  }

  lemma {:induction false} KeysGrow(s: Schema, links: seq<seq<Link>>, role: Role, e: seq<bool>, e': seq<bool>, m: nat, n: nat)
    requires LinksOk(s, links) && m < |s| && n <= |links[m]| && KeysMarked(s, links, role, e, m, n) && MarksGrow(e, e')
    ensures KeysMarked(s, links, role, e', m, n)
  {
  }

  /** The key of a kind a message is sent to: what names the object is only encoded. */
  method MarkKey(marker: Marker, links: seq<seq<Link>>, role: Role, m: nat, k: nat)
    requires marker.Valid() && marker.RootsMarked() && LinksOk(marker.schema, links) && marker.open == {}
    requires m < |marker.schema| && k < |links[m]| && SendsTo(marker.schema, links, role, m, k)
    requires RootsReasoned(marker.schema, links, role, marker.encodeRoots, marker.decodeRoots)
    requires RefsIn(marker.schema, Refs(KeyOf(marker.schema, links[m][k])))
    modifies marker
    ensures marker.Valid() && marker.RootsMarked() && marker.open == {}
    ensures RootsReasoned(marker.schema, links, role, marker.encodeRoots, marker.decodeRoots)
    ensures MarksGrow(old(marker.encode), marker.encode) && MarksGrow(old(marker.decode), marker.decode)
    ensures AllMarked(Refs(KeyOf(marker.schema, links[m][k])), marker.encode)
    ensures old(marker.encodeRoots) <= marker.encodeRoots && old(marker.decodeRoots) <= marker.decodeRoots
  {
    hide NamedIn, Reached, ClosedBut, MarksReached;
    var named := Refs(KeyOf(marker.schema, links[m][k]));
    MarksSized(marker);
    for j := 0 to |named|
      invariant marker.Valid() && marker.RootsMarked() && marker.open == {} && |marker.encode| == |marker.schema|
      invariant RootsReasoned(marker.schema, links, role, marker.encodeRoots, marker.decodeRoots)
      invariant MarksGrow(old(marker.encode), marker.encode) && MarksGrow(old(marker.decode), marker.decode)
      invariant AllMarked(named[..j], marker.encode)
      invariant old(marker.encodeRoots) <= marker.encodeRoots && old(marker.decodeRoots) <= marker.decodeRoots
    {
      ghost var before := marker.encode;
      assert named[j] in named && EncodeReason(marker.schema, links, role, named[j]);
      marker.MarkFrom(named[j], true, false);
      NextMarked(named, j, before, marker.encode);
    }
    assert named[..|named|] == named;
  }

  lemma {:induction false} KeyRefsIn(s: Schema, links: seq<seq<Link>>, role: Role, m: nat, k: nat)
    requires NamedIn(s) && LinksOk(s, links) && m < |s| && k < |links[m]| && SendsTo(s, links, role, m, k)
    ensures RefsIn(s, Refs(KeyOf(s, links[m][k])))
  {
    var hub := links[m][k].toKind.value;
    assert RefsIn(s, Named(s[hub]));
    var refs := Refs(s[hub].key);
    forall j | 0 <= j < |refs| ensures refs[j] < |s| {
      assert Named(s[hub])[j] == refs[j];
    }
  }

  /** A message a role sends or receives, and the keys it is sent by. */
  method MarkMessage(marker: Marker, links: seq<seq<Link>>, role: Role, m: nat)
    requires marker.Valid() && marker.RootsMarked() && LinksOk(marker.schema, links) && marker.open == {} && m < |marker.schema|
    requires RootsReasoned(marker.schema, links, role, marker.encodeRoots, marker.decodeRoots)
    modifies marker
    ensures marker.Valid() && marker.RootsMarked() && marker.open == {}
    ensures RootsReasoned(marker.schema, links, role, marker.encodeRoots, marker.decodeRoots)
    ensures MarksGrow(old(marker.encode), marker.encode) && MarksGrow(old(marker.decode), marker.decode)
    ensures MessageMarked(marker.schema, links, role, marker.encode, marker.decode, m)
    ensures old(marker.encodeRoots) <= marker.encodeRoots && old(marker.decodeRoots) <= marker.decodeRoots
  {
    hide Reached, ClosedBut, MarksReached, AllMarked, LinksOk, RootsReasoned, Sends, Receives, NamedIn;
    LinksSized(marker.schema, links);
    MarksSized(marker);
    if !marker.schema[m].MessageDecl? {
      return;
    }
    var sends, receives := Sends(links[m], role), Receives(links[m], role);
    if sends || receives {
      MessageReason(marker.schema, links, role, m, marker.encodeRoots, marker.decodeRoots);
      marker.MarkFrom(m, sends, receives);
    }
    for k := 0 to |links[m]|
      invariant marker.Valid() && marker.RootsMarked() && marker.open == {} && |marker.encode| == |marker.decode| == |marker.schema|
      invariant RootsReasoned(marker.schema, links, role, marker.encodeRoots, marker.decodeRoots)
      invariant MarksGrow(old(marker.encode), marker.encode) && MarksGrow(old(marker.decode), marker.decode)
      invariant (sends ==> marker.encode[m]) && (receives ==> marker.decode[m])
      invariant KeysMarked(marker.schema, links, role, marker.encode, m, k)
      invariant old(marker.encodeRoots) <= marker.encodeRoots && old(marker.decodeRoots) <= marker.decodeRoots
    {
      if SendsTo(marker.schema, links, role, m, k) {
        ghost var before := marker.encode;
        KeyRefsIn(marker.schema, links, role, m, k);
        MarkKey(marker, links, role, m, k);
        KeysGrow(marker.schema, links, role, before, marker.encode, m, k);
      }
    }
  }

  lemma {:induction false} LinksSized(s: Schema, links: seq<seq<Link>>)
    requires LinksOk(s, links)
    ensures |links| == |s|
  {
  }

  lemma {:induction false} MessageReason(s: Schema, links: seq<seq<Link>>, role: Role, m: nat, encodeRoots: set<nat>, decodeRoots: set<nat>)
    requires LinksOk(s, links) && RootsReasoned(s, links, role, encodeRoots, decodeRoots) && m < |s| && s[m].MessageDecl?
    ensures RootsReasoned(
              s,
              links,
              role,
              encodeRoots + (if Sends(links[m], role) then {m} else {}),
              decodeRoots + (if Receives(links[m], role) then {m} else {}))
  {
  }

  /** What the messages reach, before the declarations no message reaches. */
  method MarkReached(marker: Marker, links: seq<seq<Link>>, role: Role)
    requires marker.Valid() && marker.RootsMarked() && LinksOk(marker.schema, links) && marker.open == {}
    requires marker.encodeRoots == {} && marker.decodeRoots == {}
    modifies marker
    ensures marker.Valid() && marker.RootsMarked() && marker.open == {}
    ensures RootsReasoned(marker.schema, links, role, marker.encodeRoots, marker.decodeRoots)
    ensures MessagesMarked(marker.schema, links, role, marker.encode, marker.decode, |marker.schema|)
    ensures forall id :: 0 <= id < |marker.schema| && HubRoot(marker.schema, role, id) ==> marker.encode[id] && marker.decode[id]
  {
    hide Reached, ClosedBut, MarksReached, MessageMarked, NamedIn, LinksOk, EncodeReason, DecodeReason;
    var s := marker.schema;
    MarksSized(marker);
    // Hub kinds are roots of their own, for the roles that hold them.
    for id := 0 to |s|
      invariant marker.Valid() && marker.RootsMarked() && marker.open == {} && |marker.encode| == |marker.decode| == |s|
      invariant RootsReasoned(s, links, role, marker.encodeRoots, marker.decodeRoots)
      invariant forall j :: 0 <= j < id && HubRoot(s, role, j) ==> marker.encode[j] && marker.decode[j]
    {
      if HubRoot(s, role, id) {
        HubReason(s, links, role, id);
        marker.MarkFrom(id, true, true);
      }
    }
    for m := 0 to |s|
      invariant marker.Valid() && marker.RootsMarked() && marker.open == {} && |marker.encode| == |marker.decode| == |s|
      invariant RootsReasoned(s, links, role, marker.encodeRoots, marker.decodeRoots)
      invariant forall j :: 0 <= j < |s| && HubRoot(s, role, j) ==> marker.encode[j] && marker.decode[j]
      invariant MessagesMarked(s, links, role, marker.encode, marker.decode, m)
    {
      ghost var e, d := marker.encode, marker.decode;
      MarkMessage(marker, links, role, m);
      MessagesGrow(s, links, role, e, d, marker.encode, marker.decode, m);
    }
  }

  lemma {:induction false} MarksSized(marker: Marker)
    requires marker.Valid()
    ensures |marker.encode| == |marker.decode| == |marker.schema|
  {
  }

  lemma {:induction false} HubReason(s: Schema, links: seq<seq<Link>>, role: Role, id: nat)
    requires LinksOk(s, links) && HubRoot(s, role, id)
    ensures EncodeReason(s, links, role, id) && DecodeReason(s, links, role, id)
  {
  }

  /** What is marked from every root is all the roots reach. */
  lemma {:induction false} MarkedIsReached(s: Schema, marks: seq<bool>, roots: set<nat>)
    requires ClosedBut(s, marks, {}) && MarksReached(s, marks, roots) && forall id :: id in roots ==> id < |s| && marks[id]
    ensures forall id: nat :: id < |s| ==> (marks[id] <==> Reached(s, roots, id))
  {
    forall id: nat | id < |s| && Reached(s, roots, id) ensures marks[id] {
      var path :| IsPath(s, path) && path[0] in roots && path[|path| - 1] == id;
      ReachedMarked(s, marks, roots, path);
    }
  }

  /** Marks for a role: every declaration reached from what it starts from, for encoding and for decoding. */
  ghost predicate MarksOf(s: Schema, marks: seq<bool>, roots: set<nat>) {
    |marks| == |s| && ClosedMarks(s, marks) && forall id: nat :: id < |s| ==> (marks[id] <==> Reached(s, roots, id))
  }

  lemma {:induction false} MarksDone(s: Schema, marks: seq<bool>, roots: set<nat>)
    requires ClosedBut(s, marks, {}) && MarksReached(s, marks, roots) && forall id :: id in roots ==> id < |s| && marks[id]
    ensures MarksOf(s, marks, roots)
  {
    MarkedIsReached(s, marks, roots);
  }

  /** A declaration no message of the role reaches, with neither direction reached from what it sends or receives. */
  ghost predicate Unreached(s: Schema, sent: set<nat>, received: set<nat>, id: nat) {
    id < |s| && !s[id].Unnameable() && !Reached(s, sent, id) && !Reached(s, received, id)
  }

  /** Marks, both ways, what nothing marked so far reaches. */
  method MarkUnreached(marker: Marker, ghost sent: set<nat>, ghost received: set<nat>) returns (ghost unreached: set<nat>)
    requires marker.Valid() && marker.RootsMarked() && marker.open == {}
    requires marker.encodeRoots == sent && marker.decodeRoots == received
    modifies marker
    ensures marker.Valid() && marker.RootsMarked() && marker.open == {}
    ensures marker.encodeRoots == sent + unreached && marker.decodeRoots == received + unreached
    ensures MarksGrow(old(marker.encode), marker.encode) && MarksGrow(old(marker.decode), marker.decode)
    ensures |marker.encode| == |marker.decode| == |marker.schema|
    ensures forall id :: 0 <= id < |marker.schema| && !marker.schema[id].Unnameable() ==> marker.encode[id] || marker.decode[id]
    ensures forall id: nat :: id in unreached ==> Unreached(marker.schema, sent, received, id)
  {
    hide Reached, ClosedBut, MarksReached, NamedIn;
    var s := marker.schema;
    unreached := {};
    MarksSized(marker);
    for id := 0 to |s|
      invariant marker.Valid() && marker.RootsMarked() && marker.open == {} && |marker.encode| == |marker.decode| == |s|
      invariant marker.encodeRoots == sent + unreached && marker.decodeRoots == received + unreached
      invariant MarksGrow(old(marker.encode), marker.encode) && MarksGrow(old(marker.decode), marker.decode)
      invariant forall j :: 0 <= j < id && !s[j].Unnameable() ==> marker.encode[j] || marker.decode[j]
      invariant forall j: nat :: j in unreached ==> Unreached(s, sent, received, j)
    {
      if !marker.encode[id] && !marker.decode[id] && !s[id].Unnameable() {
        NotReached(s, marker.encode, sent, unreached, id);
        NotReached(s, marker.decode, received, unreached, id);
        unreached := unreached + {id};
        marker.MarkFrom(id, true, true);
        MarksSized(marker);
      }
    }
  }

  /**
   `roles`: encodes exactly what is reached from what the role sends, decodes exactly what is reached
   from what it receives, and does both for what no message of the role reaches.
   */
  method RolesOf(s: Schema, links: seq<seq<Link>>, role: Option<Role>)
    returns (encode: seq<bool>, decode: seq<bool>, ghost sent: set<nat>, ghost received: set<nat>, ghost unreached: set<nat>)
    requires NamedIn(s) && LinksOk(s, links)
    ensures |encode| == |decode| == |s|
    ensures role.None? ==> forall id :: 0 <= id < |s| ==> encode[id] && decode[id]
    ensures role.Some? ==> MarksOf(s, encode, sent + unreached) && MarksOf(s, decode, received + unreached)
    ensures role.Some? ==> RootsReasoned(s, links, role.value, sent, received)
    ensures role.Some? ==> MessagesMarked(s, links, role.value, encode, decode, |s|)
    ensures role.Some? ==> forall id :: 0 <= id < |s| && HubRoot(s, role.value, id) ==> encode[id] && decode[id]
    ensures role.Some? ==> forall id: nat :: id in unreached ==> Unreached(s, sent, received, id)
    ensures role.Some? ==> forall id :: 0 <= id < |s| && !s[id].Unnameable() ==> encode[id] || decode[id]
    ensures role.Some? ==> forall id: nat :: id < |s| && s[id].Unnameable() && Unnamed(s, id) ==>
              && (encode[id] <==> if s[id].HubDecl? then role.value.Hub? || role.value.Sim?
                                  else exists k :: 0 <= k < |links[id]| && links[id][k].from == role.value)
              && (decode[id] <==> if s[id].HubDecl? then role.value.Hub? || role.value.Sim?
                                  else exists k :: 0 <= k < |links[id]| && links[id][k].to == role.value)
  {
    sent, received, unreached := {}, {}, {};
    if role.None? {
      return seq(|s|, _ => true), seq(|s|, _ => true), sent, received, unreached;
    }
    hide Reached, Unreached, ClosedBut, MarksReached, NamedIn, LinksOk, MessageMarked, RootsReasoned, MarksOf;
    var marker := new Marker(s);
    MarkReached(marker, links, role.value);
    MarksSized(marker);
    sent, received := marker.encodeRoots, marker.decodeRoots;
    ghost var e, d := marker.encode, marker.decode;
    unreached := MarkUnreached(marker, sent, received);
    encode, decode := marker.encode, marker.decode;
    MarksDone(s, encode, sent + unreached);
    MarksDone(s, decode, received + unreached);
    MessagesGrow(s, links, role.value, e, d, encode, decode, |s|);
    LinksSized(s, links);
    forall id: nat | id < |s| && s[id].Unnameable() && Unnamed(s, id)
      ensures encode[id] <==> if s[id].HubDecl? then role.value.Hub? || role.value.Sim?
                              else exists k :: 0 <= k < |links[id]| && links[id][k].from == role.value
      ensures decode[id] <==> if s[id].HubDecl? then role.value.Hub? || role.value.Sim?
                              else exists k :: 0 <= k < |links[id]| && links[id][k].to == role.value
    {
      UnnamedMarks(s, links, role.value, id, sent, received, unreached, encode, decode);
    }
  }

  /** What is not marked is not reached from some of the roots. */
  lemma {:induction false} NotReached(s: Schema, marks: seq<bool>, some: set<nat>, others: set<nat>, id: nat)
    requires ClosedBut(s, marks, {}) && (forall j :: j in some + others ==> j < |s| && marks[j]) && id < |s| && !marks[id]
    ensures !Reached(s, some, id)
  {
    if Reached(s, some, id) {
      var path :| IsPath(s, path) && path[0] in some && path[|path| - 1] == id;
      ReachedMarked(s, marks, some, path);
      assert false;
    }
  }
}
