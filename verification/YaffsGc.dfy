/** Objects, their chunks, and the garbage collector that moves the chunks behind their back. */
module YaffsGc {
  import opened YaffsBlocks

  /** What the file system keeps of an object; chunkMap stands for a file's tnode tree. */
  datatype Obj = Obj(isFile: bool, deleted: bool, softDel: bool, hdrChunk: Option<Chunk>, chunkMap: map<nat, Chunk>,
                     nDataChunks: int, fileSize: nat, serial: nat) {
    /** The data of a soft-deleted file is free in all but name. */
    predicate SoftDeleted() {
      deleted && softDel
    }
  }

  type Objs = map<nat, Obj>

  ghost predicate SoftIn(soft: seq<set<nat>>, c: Chunk) {
    c.block < |soft| && c.page in soft[c.block]
  }

  /** The tags of a chunk in use say truly whose it is. */
  ghost predicate OwnerOk(cps: nat, c: Chunk, page: Page, soft: bool, objs: Objs) {
    var t := page.tags;
    if t.objId == SUMMARY_ID then !soft
    else
      && (cps > 0 ==> c.page < cps) && t.objId in objs
      && var o := objs[t.objId];
         if t.chunkId == 0 then !soft && o.hdrChunk == Some(c) && page.content.Header?
         else o.isFile && page.content.Data? && soft == o.SoftDeleted()
              && (!soft ==> t.chunkId in o.chunkMap && o.chunkMap[t.chunkId] == c)
  }

  /** Chunk c is in use and tagged as chunk k of object id; the header is chunk 0. */
  ghost predicate Tagged(blocks: seq<Block>, nand: Nand, c: Chunk, id: nat, k: nat) {
    Used(blocks, c) && c in nand && nand[c].tags.objId == id && nand[c].tags.chunkId == k
  }

  ghost predicate ObjOk(blocks: seq<Block>, nand: Nand, id: nat, o: Obj) {
    && id != SUMMARY_ID
    && (o.hdrChunk.Some? ==> Tagged(blocks, nand, o.hdrChunk.value, id, 0))
    && (forall k {:trigger k in o.chunkMap} {:trigger o.chunkMap[k]} ::
         k in o.chunkMap ==> k > 0 && Tagged(blocks, nand, o.chunkMap[k], id, k))
    && (o.SoftDeleted() || !o.isFile ==> o.chunkMap == map[])
  }

  /** The soft-deleted chunks of an object. */
  ghost function SoftChunks(soft: seq<set<nat>>, nand: Nand, id: nat): set<Chunk> {
    set c: Chunk | c in nand.Keys && SoftIn(soft, c) && nand[c].tags.objId == id
  }

  ghost predicate CountOk(soft: seq<set<nat>>, nand: Nand, id: nat, o: Obj) {
    o.nDataChunks == if o.SoftDeleted() then |SoftChunks(soft, nand, id)| else |o.chunkMap|
  }

  /** Chunks in use and the objects' pointers to chunks are in bijection through the tags. */
  ghost predicate Linked(cps: nat, blocks: seq<Block>, soft: seq<set<nat>>, nand: Nand, objs: Objs) {
    && (forall c: Chunk {:trigger Used(blocks, c)} ::
         Used(blocks, c) ==> c in nand && OwnerOk(cps, c, nand[c], SoftIn(soft, c), objs))
    && (forall id {:trigger objs[id]} {:trigger id in objs} :: id in objs ==> ObjOk(blocks, nand, id, objs[id]))
  }

  ghost predicate Counted(soft: seq<set<nat>>, nand: Nand, objs: Objs) {
    forall id {:trigger objs[id]} {:trigger id in objs} :: id in objs ==> CountOk(soft, nand, id, objs[id])
  }

  /** Only chunks in use are soft. */
  ghost predicate SoftUsed(blocks: seq<Block>, soft: seq<set<nat>>) {
    forall c: Chunk {:trigger SoftIn(soft, c)} :: SoftIn(soft, c) ==> Used(blocks, c)
  }

  /** Nothing new but summaries: the links stay. */
  lemma LinkedGrown(cps: nat, b0: seq<Block>, n0: Nand, b1: seq<Block>, n1: Nand, soft: seq<set<nat>>, objs: Objs)
    requires Linked(cps, b0, soft, n0, objs) && Grown(b0, n0, b1, n1, {}) && SoftUsed(b0, soft)
    ensures Linked(cps, b1, soft, n1, objs)
  {
    hide OwnerOk;
    forall c: Chunk | Used(b1, c) ensures c in n1 && OwnerOk(cps, c, n1[c], SoftIn(soft, c), objs) {
      if !Used(b0, c) {
        SummaryOwned(cps, c, n1[c], objs);
      }
    }
    forall id | id in objs ensures ObjOk(b1, n1, id, objs[id]) {
      assert ObjOk(b0, n0, id, objs[id]);
    }
  }

  lemma SummaryOwned(cps: nat, c: Chunk, page: Page, objs: Objs)
    requires page.tags.objId == SUMMARY_ID
    ensures OwnerOk(cps, c, page, false, objs)
  {}

  // ---- moving, making and dropping chunks ----

  /** The object's pointer to its chunk k, the header being chunk 0. */
  ghost predicate PointsTo(o: Obj, k: nat, c: Chunk) {
    if k == 0 then o.hdrChunk == Some(c) else k in o.chunkMap && o.chunkMap[k] == c
  }

  /** o' is o with its chunk k at c; counts and times aside. */
  ghost predicate Repointed(o: Obj, o': Obj, k: nat, c: Chunk) {
    && o'.isFile == o.isFile && o'.SoftDeleted() == o.SoftDeleted()
    && if k == 0 then o'.hdrChunk == Some(c) && o'.chunkMap == o.chunkMap
       else o'.hdrChunk == o.hdrChunk && o'.chunkMap == o.chunkMap[k := c]
  }

  /** A chunk newly written for chunk k of an object. */
  ghost predicate FreshFor(cps: nat, blocks: seq<Block>, soft: seq<set<nat>>, nand: Nand, o: Obj, id: nat, k: nat,
                           c: Chunk) {
    && Tagged(blocks, nand, c, id, k) && !SoftIn(soft, c) && (cps > 0 ==> c.page < cps)
    && (if k == 0 then nand[c].content.Header? else nand[c].content.Data? && o.isFile && !o.SoftDeleted())
  }

  /** The file system has written chunk k of object id to `to` and deleted its predecessor. */
  lemma Rehomed(cps: nat, b0: seq<Block>, n0: Nand, b1: seq<Block>, n1: Nand, b2: seq<Block>, n2: Nand,
                soft: seq<set<nat>>,
                objs: Objs, id: nat, k: nat, from: Chunk, to: Chunk, o': Obj)
    requires Linked(cps, b0, soft, n0, objs) && SoftUsed(b0, soft)
    requires Grown(b0, n0, b1, n1, {to}) && !Used(b0, to) && Shrunk(b1, n1, b2, n2, from) && Used(b0, from)
    requires id in objs && PointsTo(objs[id], k, from) && Repointed(objs[id], o', k, to)
    requires FreshFor(cps, b1, soft, n1, objs[id], id, k, to)
    ensures Linked(cps, b2, soft, n2, objs[id := o'])
  {
    hide Grown, Shrunk;
    WrittenThenDeleted(b0, n0, b1, n1, b2, n2, to, from);
    RehomedLinks(cps, b0, n0, b2, n2, soft, objs, id, k, from, to, o');
  }

  /** Chunk `from` has given way to `to`, and summaries may have been added. */
  ghost predicate Replaced(b0: seq<Block>, n0: Nand, b2: seq<Block>, n2: Nand, to: Chunk, from: Chunk) {
    && Used(b2, to) && !Used(b0, to) && Used(b0, from) && !Used(b2, from)
    && (forall c: Chunk {:trigger Used(b0, c)} {:trigger Used(b2, c)} ::
         c != from && Used(b0, c) && c in n0 ==> Used(b2, c) && c in n2 && n2[c] == n0[c])
    && (forall c: Chunk {:trigger Used(b2, c)} ::
         Used(b2, c) && c != to && !Used(b0, c) ==> c in n2 && n2[c].tags.objId == SUMMARY_ID)
  }

  lemma WrittenThenDeleted(b0: seq<Block>, n0: Nand, b1: seq<Block>, n1: Nand, b2: seq<Block>, n2: Nand, to: Chunk,
                           from: Chunk)
    requires Grown(b0, n0, b1, n1, {to}) && !Used(b0, to) && Used(b1, to) && Shrunk(b1, n1, b2, n2, from)
      && Used(b0, from)
    ensures Replaced(b0, n0, b2, n2, to, from) && (to in n1 ==> to in n2 && n2[to] == n1[to])
  {}

  lemma RehomedLinks(cps: nat, b0: seq<Block>, n0: Nand, b2: seq<Block>, n2: Nand, soft: seq<set<nat>>,
                     objs: Objs, id: nat, k: nat, from: Chunk, to: Chunk, o': Obj)
    requires Linked(cps, b0, soft, n0, objs) && SoftUsed(b0, soft) && Replaced(b0, n0, b2, n2, to, from)
    requires id in objs && PointsTo(objs[id], k, from) && Repointed(objs[id], o', k, to)
    requires FreshFor(cps, b2, soft, n2, objs[id], id, k, to)
    ensures Linked(cps, b2, soft, n2, objs[id := o'])
  {
    hide OwnerOk, ObjOk, Used, SoftIn, PointsTo, Repointed, FreshFor, Tagged;
    var objs' := objs[id := o'];
    PointerTagged(cps, b0, n0, soft, objs, id, k, from);
    forall c: Chunk | Used(b2, c) ensures c in n2 && OwnerOk(cps, c, n2[c], SoftIn(soft, c), objs') {
      if c == to {
        FreshOwned(cps, b2, n2, soft, objs, id, k, to, o');
      } else if Used(b0, c) {
        OwnerKept(cps, b0, n0, soft, objs, id, k, from, to, o', c);
      } else {
        NewUnsoft(b0, soft, c);
        SummaryOwned(cps, c, n2[c], objs');
      }
    }
    forall i | i in objs' ensures ObjOk(b2, n2, i, objs'[i]) {
      assert ObjOk(b0, n0, i, objs[i]);
      if i == id {
        RepointedOk(cps, b0, n0, b2, n2, soft, objs[id], id, k, from, to, o');
      } else {
        OtherOk(b0, n0, b2, n2, objs[i], i, id, k, from, to);
      }
    }
  }

  lemma FreshOwned(cps: nat, b2: seq<Block>, n2: Nand, soft: seq<set<nat>>, objs: Objs, id: nat, k: nat, to: Chunk,
                   o': Obj)
    requires id in objs && id != SUMMARY_ID && Repointed(objs[id], o', k, to)
      && FreshFor(cps, b2, soft, n2, objs[id], id, k, to)
    ensures to in n2 && OwnerOk(cps, to, n2[to], SoftIn(soft, to), objs[id := o'])
  {}

  lemma NewUnsoft(b0: seq<Block>, soft: seq<set<nat>>, c: Chunk)
    requires SoftUsed(b0, soft) && !Used(b0, c)
    ensures !SoftIn(soft, c)
  {}

  /** A chunk that stays in use is still owned as before. */
  lemma OwnerKept(cps: nat, b0: seq<Block>, n0: Nand, soft: seq<set<nat>>, objs: Objs, id: nat, k: nat, from: Chunk,
                  to: Chunk, o': Obj, c: Chunk)
    requires c in n0 && OwnerOk(cps, c, n0[c], SoftIn(soft, c), objs) && c != from
    requires id in objs && PointsTo(objs[id], k, from) && Repointed(objs[id], o', k, to)
    ensures OwnerOk(cps, c, n0[c], SoftIn(soft, c), objs[id := o'])
  {}

  lemma RepointedOk(cps: nat, b0: seq<Block>, n0: Nand, b2: seq<Block>, n2: Nand, soft: seq<set<nat>>, o: Obj, id: nat,
                    k: nat, from: Chunk, to: Chunk, o': Obj)
    requires ObjOk(b0, n0, id, o) && Replaced(b0, n0, b2, n2, to, from) && PointsTo(o, k, from)
    requires Repointed(o, o', k, to) && FreshFor(cps, b2, soft, n2, o, id, k, to)
    ensures ObjOk(b2, n2, id, o')
  {
    hide Used, SoftIn;
  }

  lemma OtherOk(b0: seq<Block>, n0: Nand, b2: seq<Block>, n2: Nand, o: Obj, i: nat, id: nat, k: nat, from: Chunk,
                to: Chunk)
    requires ObjOk(b0, n0, i, o) && i != id && Replaced(b0, n0, b2, n2, to, from) && Tagged(b0, n0, from, id, k)
    ensures ObjOk(b2, n2, i, o)
  {
    hide Used;
    OthersElsewhere(b0, n0, o, i, id, from);
  }

  lemma PointerTagged(cps: nat, b0: seq<Block>, n0: Nand, soft: seq<set<nat>>, objs: Objs, id: nat, k: nat, c: Chunk)
    requires Linked(cps, b0, soft, n0, objs) && id in objs && PointsTo(objs[id], k, c)
    ensures Tagged(b0, n0, c, id, k) && id != SUMMARY_ID
    ensures k > 0 ==> objs[id].isFile && !objs[id].SoftDeleted()
  {
    assert ObjOk(b0, n0, id, objs[id]);
  }

  /** No other object points to a chunk tagged as this one's. */
  lemma OthersElsewhere(b0: seq<Block>, n0: Nand, o: Obj, i: nat, id: nat, c: Chunk)
    requires ObjOk(b0, n0, i, o) && i != id && c in n0 && n0[c].tags.objId == id
    ensures forall k: nat :: !PointsTo(o, k, c)
  {
    forall k: nat ensures !PointsTo(o, k, c) {
      assert PointsTo(o, k, c) ==> Tagged(b0, n0, c, i, k);
    }
  }

  /** Chunk `from` has gone and nothing has come. */
  lemma Gone(b0: seq<Block>, n0: Nand, b2: seq<Block>, n2: Nand, from: Chunk, cps: nat, soft: seq<set<nat>>, objs: Objs)
    requires Linked(cps, b0, soft, n0, objs) && Shrunk(b0, n0, b2, n2, from)
    ensures forall c: Chunk {:trigger Used(b2, c)} ::
      Used(b2, c) ==> c != from && Used(b0, c) && c in n2 && n2[c] == n0[c]
    ensures forall c: Chunk {:trigger Used(b2, c)} :: Used(b0, c) && c != from ==> Used(b2, c)
  {}

  /** A summary chunk has been deleted. */
  lemma DroppedSummary(cps: nat, b0: seq<Block>, n0: Nand, b2: seq<Block>, n2: Nand, soft: seq<set<nat>>, objs: Objs,
                       from: Chunk)
    requires Linked(cps, b0, soft, n0, objs) && Shrunk(b0, n0, b2, n2, from) && from in n0
      && n0[from].tags.objId == SUMMARY_ID
    ensures Linked(cps, b2, soft, n2, objs)
  {
    Gone(b0, n0, b2, n2, from, cps, soft, objs);
    hide Shrunk;
    forall c: Chunk | Used(b2, c) ensures c in n2 && OwnerOk(cps, c, n2[c], SoftIn(soft, c), objs) {
      assert OwnerOk(cps, c, n0[c], SoftIn(soft, c), objs);
    }
    forall i | i in objs ensures ObjOk(b2, n2, i, objs[i]) {
      assert ObjOk(b0, n0, i, objs[i]);
      OthersElsewhere(b0, n0, objs[i], i, SUMMARY_ID, from);
    }
  }

  /** A soft-deleted chunk has been deleted for good. */
  lemma DroppedSoft(cps: nat, b0: seq<Block>, n0: Nand, b2: seq<Block>, n2: Nand, soft: seq<set<nat>>,
                    soft': seq<set<nat>>,
                    objs: Objs, id: nat, o': Obj, from: Chunk)
    requires Linked(cps, b0, soft, n0, objs) && Shrunk(b0, n0, b2, n2, from)
    requires from in n0 && n0[from].tags.objId == id && n0[from].tags.chunkId != 0 && id in objs
      && objs[id].SoftDeleted()
    requires forall c: Chunk {:trigger SoftIn(soft', c)} :: c != from ==> (SoftIn(soft', c) <==> SoftIn(soft, c))
    requires o' == objs[id].(nDataChunks := o'.nDataChunks)
    ensures Linked(cps, b2, soft', n2, objs[id := o'])
  {
    Gone(b0, n0, b2, n2, from, cps, soft, objs);
    hide Shrunk;
    var objs' := objs[id := o'];
    forall c: Chunk | Used(b2, c) ensures c in n2 && OwnerOk(cps, c, n2[c], SoftIn(soft', c), objs') {
      assert OwnerOk(cps, c, n0[c], SoftIn(soft, c), objs);
      assert SoftIn(soft', c) <==> SoftIn(soft, c);
    }
    forall i | i in objs' ensures ObjOk(b2, n2, i, objs'[i]) {
      assert ObjOk(b0, n0, i, objs[i]);
      if i != id {
        OthersElsewhere(b0, n0, objs[i], i, id, from);
      }
    }
  }

  /** Chunk k of a file has been deleted and its pointer cleared. */
  lemma DroppedData(cps: nat, b0: seq<Block>, n0: Nand, b2: seq<Block>, n2: Nand, soft: seq<set<nat>>,
                    objs: Objs, id: nat, k: nat, o': Obj, from: Chunk)
    requires Linked(cps, b0, soft, n0, objs) && Shrunk(b0, n0, b2, n2, from)
    requires id in objs && k > 0 && PointsTo(objs[id], k, from)
    requires o' == objs[id].(chunkMap := objs[id].chunkMap - {k}, nDataChunks := o'.nDataChunks)
    ensures Linked(cps, b2, soft, n2, objs[id := o'])
  {
    Gone(b0, n0, b2, n2, from, cps, soft, objs);
    hide Shrunk, OwnerOk, ObjOk, SoftIn, PointsTo, Tagged;
    PointerTagged(cps, b0, n0, soft, objs, id, k, from);
    var objs' := objs[id := o'];
    forall c: Chunk | Used(b2, c) ensures c in n2 && OwnerOk(cps, c, n2[c], SoftIn(soft, c), objs') {
      OwnerLeft(cps, n0, soft, objs, id, k, o', from, c);
    }
    forall i | i in objs' ensures ObjOk(b2, n2, i, objs'[i]) {
      assert ObjOk(b0, n0, i, objs[i]);
      if i == id {
        DroppedOk(b0, n0, b2, n2, objs[id], id, k, from, o');
      } else {
        ElsewhereOk(b0, n0, b2, n2, objs[i], i, id, k, from);
      }
    }
  }

  lemma OwnerLeft(cps: nat, n0: Nand, soft: seq<set<nat>>, objs: Objs, id: nat, k: nat, o': Obj, from: Chunk, c: Chunk)
    requires c in n0 && OwnerOk(cps, c, n0[c], SoftIn(soft, c), objs) && c != from
    requires id in objs && k > 0 && PointsTo(objs[id], k, from)
    requires o' == objs[id].(chunkMap := objs[id].chunkMap - {k}, nDataChunks := o'.nDataChunks)
    ensures OwnerOk(cps, c, n0[c], SoftIn(soft, c), objs[id := o'])
  {}

  lemma DroppedOk(b0: seq<Block>, n0: Nand, b2: seq<Block>, n2: Nand, o: Obj, id: nat, k: nat, from: Chunk, o': Obj)
    requires ObjOk(b0, n0, id, o) && k > 0 && PointsTo(o, k, from) && Tagged(b0, n0, from, id, k)
    requires forall c: Chunk {:trigger Used(b0, c)} ::
      Used(b0, c) && c in n0 && c != from ==> Used(b2, c) && c in n2 && n2[c] == n0[c]
    requires o' == o.(chunkMap := o.chunkMap - {k}, nDataChunks := o'.nDataChunks)
    ensures ObjOk(b2, n2, id, o')
  {
    hide Used;
  }

  lemma ElsewhereOk(b0: seq<Block>, n0: Nand, b2: seq<Block>, n2: Nand, o: Obj, i: nat, id: nat, k: nat, from: Chunk)
    requires ObjOk(b0, n0, i, o) && i != id && Tagged(b0, n0, from, id, k)
    requires forall c: Chunk {:trigger Used(b0, c)} ::
      Used(b0, c) && c in n0 && c != from ==> Used(b2, c) && c in n2 && n2[c] == n0[c]
    ensures ObjOk(b2, n2, i, o)
  {
    hide Used;
    OthersElsewhere(b0, n0, o, i, id, from);
  }

  /** An object without data chunks has gone, its header with it. */
  lemma DroppedObj(cps: nat, b0: seq<Block>, n0: Nand, b2: seq<Block>, n2: Nand, soft: seq<set<nat>>, objs: Objs,
                   id: nat)
    requires Linked(cps, b0, soft, n0, objs) && id in objs && objs[id].chunkMap == map[]
    requires SoftChunks(soft, n0, id) == {}
    requires if objs[id].hdrChunk.Some? then Shrunk(b0, n0, b2, n2, objs[id].hdrChunk.value) else b2 == b0 && n2 == n0
    ensures Linked(cps, b2, soft, n2, objs - {id})
  {
    assert ObjOk(b0, n0, id, objs[id]);
    if objs[id].hdrChunk.Some? {
      Gone(b0, n0, b2, n2, objs[id].hdrChunk.value, cps, soft, objs);
    }
    hide Shrunk;
    var objs' := objs - {id};
    forall c: Chunk | Used(b2, c) ensures c in n2 && OwnerOk(cps, c, n2[c], SoftIn(soft, c), objs') {
      assert Used(b0, c);
      assert OwnerOk(cps, c, n0[c], SoftIn(soft, c), objs);
      if n0[c].tags.objId == id {
        NoneLeft(cps, c, n0, soft, objs, id);
      }
    }
    forall i | i in objs' ensures ObjOk(b2, n2, i, objs'[i]) {
      assert ObjOk(b0, n0, i, objs[i]);
      if objs[id].hdrChunk.Some? {
        OthersElsewhere(b0, n0, objs[i], i, id, objs[id].hdrChunk.value);
      }
    }
  }

  /** A chunk of an object without data can only be its header. */
  lemma NoneLeft(cps: nat, c: Chunk, n0: Nand, soft: seq<set<nat>>, objs: Objs, id: nat)
    requires c in n0 && n0[c].tags.objId == id && id in objs && id != SUMMARY_ID && objs[id].chunkMap == map[]
    requires SoftChunks(soft, n0, id) == {} && OwnerOk(cps, c, n0[c], SoftIn(soft, c), objs)
    ensures objs[id].hdrChunk == Some(c)
  {
    assert SoftIn(soft, c) ==> c in SoftChunks(soft, n0, id);
  }

  /** A chunk has been written where the object had none. */
  lemma Homed(cps: nat, b0: seq<Block>, n0: Nand, b1: seq<Block>, n1: Nand, soft: seq<set<nat>>,
              objs: Objs, id: nat, k: nat, to: Chunk, o': Obj)
    requires Linked(cps, b0, soft, n0, objs) && SoftUsed(b0, soft)
    requires Grown(b0, n0, b1, n1, {to}) && !Used(b0, to)
    requires id in objs && (forall c: Chunk :: !PointsTo(objs[id], k, c)) && Repointed(objs[id], o', k, to)
    requires FreshFor(cps, b1, soft, n1, objs[id], id, k, to)
    ensures Linked(cps, b1, soft, n1, objs[id := o'])
  {
    var objs' := objs[id := o'];
    assert ObjOk(b0, n0, id, objs[id]);
    forall c: Chunk | Used(b1, c) ensures c in n1 && OwnerOk(cps, c, n1[c], SoftIn(soft, c), objs') {
      if c == to {
      } else if Used(b0, c) {
        assert OwnerOk(cps, c, n0[c], SoftIn(soft, c), objs);
        assert !PointsTo(objs[id], k, c);
      } else {
        SummaryOwned(cps, c, n1[c], objs');
      }
    }
    forall i | i in objs' ensures ObjOk(b1, n1, i, objs'[i]) {
      assert ObjOk(b0, n0, i, objs[i]);
    }
  }

  // ---- the counts ----

  /** Chunks still in use keep their contents. */
  ghost predicate Stays(b0: seq<Block>, n0: Nand, b1: seq<Block>, n1: Nand, soft: seq<set<nat>>) {
    forall c: Chunk {:trigger SoftIn(soft, c)} ::
      SoftIn(soft, c) ==> (c in n0 <==> c in n1) && (c in n0 ==> n1[c] == n0[c])
  }

  lemma StaysGrown(b0: seq<Block>, n0: Nand, b1: seq<Block>, n1: Nand, more: set<Chunk>, soft: seq<set<nat>>)
    requires Grown(b0, n0, b1, n1, more) && SoftUsed(b0, soft)
    ensures Stays(b0, n0, b1, n1, soft)
  {
    assert forall c: Chunk :: SoftIn(soft, c) ==> Used(b0, c);
  }

  lemma StaysShrunk(b0: seq<Block>, n0: Nand, b1: seq<Block>, n1: Nand, from: Chunk, soft: seq<set<nat>>)
    requires Shrunk(b0, n0, b1, n1, from) && SoftUsed(b0, soft) && !SoftIn(soft, from)
    ensures Stays(b0, n0, b1, n1, soft)
  {
    assert forall c: Chunk :: SoftIn(soft, c) ==> Used(b1, c) && Used(b0, c);
  }

  lemma StaysTrans(b0: seq<Block>, n0: Nand, b1: seq<Block>, n1: Nand, b2: seq<Block>, n2: Nand, soft: seq<set<nat>>)
    requires Stays(b0, n0, b1, n1, soft) && Stays(b1, n1, b2, n2, soft)
    ensures Stays(b0, n0, b2, n2, soft)
  {}

  lemma SameSoftChunks(b0: seq<Block>, n0: Nand, b1: seq<Block>, n1: Nand, soft: seq<set<nat>>, id: nat)
    requires Stays(b0, n0, b1, n1, soft)
    ensures SoftChunks(soft, n1, id) == SoftChunks(soft, n0, id)
  {
    forall c: Chunk ensures c in SoftChunks(soft, n1, id) <==> c in SoftChunks(soft, n0, id) {
      if SoftIn(soft, c) {
      }
    }
  }

  /** n_data_chunks counts the nonzero entries of the chunk map. */
  lemma CountedSame(b0: seq<Block>, n0: Nand, b1: seq<Block>, n1: Nand, soft: seq<set<nat>>, objs: Objs, id: nat,
                    o': Obj)
    requires Counted(soft, n0, objs) && Stays(b0, n0, b1, n1, soft)
    requires id in objs ==> o'.SoftDeleted() == objs[id].SoftDeleted()
    requires id in objs ==> o'.nDataChunks == if o'.SoftDeleted() then objs[id].nDataChunks else |o'.chunkMap|
    requires id !in objs ==> o'.nDataChunks == if o'.SoftDeleted() then |SoftChunks(soft, n0, id)| else |o'.chunkMap|
    ensures Counted(soft, n1, objs[id := o'])
  {
    var objs' := objs[id := o'];
    forall i | i in objs' ensures CountOk(soft, n1, i, objs'[i]) {
      SameSoftChunks(b0, n0, b1, n1, soft, i);
      assert i in objs ==> CountOk(soft, n0, i, objs[i]);
    }
  }

  lemma CountedKept(b0: seq<Block>, n0: Nand, b1: seq<Block>, n1: Nand, soft: seq<set<nat>>, objs: Objs)
    requires Counted(soft, n0, objs) && Stays(b0, n0, b1, n1, soft)
    ensures Counted(soft, n1, objs)
  {
    forall i | i in objs ensures CountOk(soft, n1, i, objs[i]) {
      SameSoftChunks(b0, n0, b1, n1, soft, i);
    }
  }

  lemma RemappedSize(m: map<nat, Chunk>, k: nat, c: Chunk)
    ensures |m[k := c]| == if k in m then |m| else |m| + 1
    ensures k in m ==> |m - {k}| == |m| - 1
  {
    if k in m {
      assert m[k := c].Keys == m.Keys;
      assert (m - {k}).Keys == m.Keys - {k};
    } else {
      assert m[k := c].Keys == m.Keys + {k};
    }
  }

  /** One soft-deleted chunk less. */
  lemma CountedDropped(b0: seq<Block>, n0: Nand, b1: seq<Block>, n1: Nand, soft: seq<set<nat>>, soft': seq<set<nat>>,
                       objs: Objs, id: nat, o': Obj, from: Chunk)
    requires Counted(soft, n0, objs) && Stays(b0, n0, b1, n1, soft')
    requires from in n0 && n0[from].tags.objId == id && id in objs && objs[id].SoftDeleted() && SoftIn(soft, from)
      && !SoftIn(soft', from)
    requires forall c: Chunk {:trigger SoftIn(soft', c)} :: c != from ==> (SoftIn(soft', c) <==> SoftIn(soft, c))
    requires o' == objs[id].(nDataChunks := objs[id].nDataChunks - 1)
    ensures Counted(soft', n1, objs[id := o'])
  {
    var objs' := objs[id := o'];
    forall i | i in objs' ensures CountOk(soft', n1, i, objs'[i]) {
      assert CountOk(soft, n0, i, objs[i]);
      SameSoftChunks(b0, n0, b1, n1, soft', i);
      if i == id {
        assert SoftChunks(soft', n0, id) == SoftChunks(soft, n0, id) - {from} by {
          forall c: Chunk ensures c in SoftChunks(soft', n0, id) <==> c in SoftChunks(soft, n0, id) - {from} {
            assert c != from ==> (SoftIn(soft', c) <==> SoftIn(soft, c));
          }
        }
        assert from in SoftChunks(soft, n0, id);
      } else {
        assert SoftChunks(soft', n0, i) == SoftChunks(soft, n0, i) by {
          forall c: Chunk ensures c in SoftChunks(soft', n0, i) <==> c in SoftChunks(soft, n0, i) {
            assert c != from ==> (SoftIn(soft', c) <==> SoftIn(soft, c));
          }
        }
      }
    }
  }

  // ---- what the collector may not change ----

  /** A header as the collector rewrites it. */
  function Rewritten(h: Content, o: Obj): Content
    requires h.Header?
  {
    h.(isShrink := false, shadowsObj := 0, inbandShadowed := 0, fileSize := if o.isFile then o.fileSize else h.fileSize)
  }

  /** The same object: the same data in the same chunks, and the same header but for the shrink and shadow marks and the
      size. */
  ghost predicate ObjKept(n0: Nand, o: Obj, n1: Nand, o': Obj) {
    && o'.isFile == o.isFile && o'.deleted == o.deleted && o'.softDel == o.softDel && o'.fileSize == o.fileSize
    && o'.chunkMap.Keys == o.chunkMap.Keys
    && (forall k {:trigger o.chunkMap[k]} {:trigger o'.chunkMap[k]} ::
         k in o.chunkMap ==> SamePage(n0, o.chunkMap[k], n1, o'.chunkMap[k]))
    && (if o.hdrChunk.Some?
        then o'.hdrChunk.Some? && SameHeader(n0, o.hdrChunk.value, n1, o'.hdrChunk.value, o)
        else o'.hdrChunk.None?)
  }

  ghost predicate SamePage(n0: Nand, c: Chunk, n1: Nand, c': Chunk) {
    c in n0 && c' in n1 && n1[c'].content == n0[c].content && n1[c'].tags.nBytes == n0[c].tags.nBytes
  }

  ghost predicate SameHeader(n0: Nand, c: Chunk, n1: Nand, c': Chunk, o: Obj) {
    && c in n0 && c' in n1 && n0[c].content.Header?
    && (n1[c'].content == n0[c].content || n1[c'].content == Rewritten(n0[c].content, o))
  }

  /** Every object is kept, but that the remains of soft-deleted files may have been cleared away. */
  ghost predicate AllKept(objs: Objs, n0: Nand, objs': Objs, n1: Nand) {
    && (forall id {:trigger id in objs} {:trigger id in objs'} :: id in objs' ==> id in objs)
    && forall id {:trigger objs[id]} {:trigger objs'[id]} {:trigger id in objs'} :: id in objs ==>
         if id in objs' then ObjKept(n0, objs[id], n1, objs'[id]) else objs[id].SoftDeleted()
  }

  lemma AllKeptTrans(objs0: Objs, n0: Nand, objs1: Objs, n1: Nand, objs2: Objs, n2: Nand)
    requires AllKept(objs0, n0, objs1, n1) && AllKept(objs1, n1, objs2, n2)
    ensures AllKept(objs0, n0, objs2, n2)
  {
    hide ObjKept;
    forall id | id in objs0
      ensures if id in objs2 then ObjKept(n0, objs0[id], n2, objs2[id]) else objs0[id].SoftDeleted()
    {
      if id in objs1 {
        assert ObjKept(n0, objs0[id], n1, objs1[id]);
        SoftDeletedKept(n0, objs0[id], n1, objs1[id]);
        if id in objs2 {
          ObjKeptTrans(n0, objs0[id], n1, objs1[id], n2, objs2[id]);
        }
      }
    }
  }

  lemma SoftDeletedKept(n0: Nand, o: Obj, n1: Nand, o': Obj)
    requires ObjKept(n0, o, n1, o')
    ensures o'.SoftDeleted() == o.SoftDeleted()
  {}

  lemma ObjKeptTrans(n0: Nand, o0: Obj, n1: Nand, o1: Obj, n2: Nand, o2: Obj)
    requires ObjKept(n0, o0, n1, o1) && ObjKept(n1, o1, n2, o2)
    ensures ObjKept(n0, o0, n2, o2)
  {}

  /** Contents of chunks still in use are kept, so objects that have not been touched are. */
  lemma UntouchedKept(cps: nat, b0: seq<Block>, n0: Nand, b1: seq<Block>, n1: Nand, soft: seq<set<nat>>, objs: Objs,
                      gone: set<Chunk>)
    requires Linked(cps, b0, soft, n0, objs)
    requires forall c: Chunk {:trigger Used(b0, c)} ::
      Used(b0, c) && c in n0 && c !in gone ==> c in n1 && n1[c] == n0[c]
    ensures forall id {:trigger objs[id]} ::
      id in objs && (forall c, k: nat :: c in gone ==> !PointsTo(objs[id], k, c)) ==>
      ObjKept(n0, objs[id], n1, objs[id])
  {
    forall id | id in objs
      && (forall c, k: nat :: c in gone ==> !PointsTo(objs[id], k, c)) ensures ObjKept(n0, objs[id], n1, objs[id]) {
      UntouchedObj(cps, b0, n0, b1, n1, soft, objs, gone, id);
    }
  }

  lemma UntouchedObj(cps: nat, b0: seq<Block>, n0: Nand, b1: seq<Block>, n1: Nand, soft: seq<set<nat>>, objs: Objs,
                     gone: set<Chunk>, id: nat)
    requires Linked(cps, b0, soft, n0, objs) && id in objs
      && (forall c, k: nat :: c in gone ==> !PointsTo(objs[id], k, c))
    requires forall c: Chunk {:trigger Used(b0, c)} ::
      Used(b0, c) && c in n0 && c !in gone ==> c in n1 && n1[c] == n0[c]
    ensures ObjKept(n0, objs[id], n1, objs[id])
  {
    var o := objs[id];
    assert ObjOk(b0, n0, id, o);
    forall k | k in o.chunkMap ensures SamePage(n0, o.chunkMap[k], n1, o.chunkMap[k]) {
      assert PointsTo(o, k, o.chunkMap[k]);
    }
    if o.hdrChunk.Some? {
      var h := o.hdrChunk.value;
      assert PointsTo(o, 0, h);
      assert OwnerOk(cps, h, n0[h], SoftIn(soft, h), objs);
    }
  }

  // ---- the collector ----

  class Dev {
    const fl: Flash
    const scarce: bool     // may memory for tnodes run out?
    var objs: Objs
    var gcChunk: nat
    var cleanup: seq<nat>  // objects to remove for good when the collection of this block is over

    /** The end of mounting: a flash with the objects found on it. */
    constructor (fl: Flash, objs: Objs, scarce: bool)
      requires fl.Valid() && fl.gcBlock == 0 && Linked(fl.cps, fl.blocks, fl.soft, fl.nand, objs)
        && Counted(fl.soft, fl.nand, objs)
      requires forall b {:trigger fl.blocks[b]} :: 0 <= b < |fl.blocks| ==> fl.blocks[b].state != Collecting
      ensures Valid() && this.fl == fl && this.objs == objs && this.scarce == scarce
    {
      this.fl, this.scarce, this.objs, this.gcChunk, this.cleanup := fl, scarce, objs, 0, [];
    }

    ghost predicate Consistent()
      reads this`objs, fl
    {
      && fl.Valid()
      && Linked(fl.cps, fl.blocks, fl.soft, fl.nand, objs)
      && Counted(fl.soft, fl.nand, objs)
    }

    /** Between collections the block being collected is full; nothing is pending without one. */
    ghost predicate GcOk()
      reads this`cleanup, this`objs, this`gcChunk, fl
    {
      && (fl.gcBlock != 0 ==> fl.IsBlock(fl.gcBlock) && fl.blocks[fl.gcBlock].state == Full)
      && (forall b {:trigger fl.blocks[b]} :: 0 <= b < |fl.blocks| ==> fl.blocks[b].state != Collecting)
      && CleanupOk() && |cleanup| <= gcChunk <= fl.cpb
    }

    /** Objects on the clean-up list have no chunk left but their header. */
    ghost predicate CleanupOk()
      reads this`cleanup, this`objs
    {
      forall id {:trigger id in cleanup} ::
        id in cleanup && id in objs ==> objs[id].SoftDeleted() && objs[id].nDataChunks <= 0
    }

    ghost predicate Valid()
      reads this, fl
    {
      Consistent() && GcOk()
    }

    lemma SoftIsUsed()
      requires fl.Valid()
      ensures SoftUsed(fl.blocks, fl.soft)
    {
      forall c: Chunk | SoftIn(fl.soft, c) ensures Used(fl.blocks, c) {
        assert BlockOk(fl.blocks[c.block], fl.soft[c.block], fl.cpb);
      }
    }

    /** Read a page in use; a corrected error counts against its block. */
    method RdChunkTags(c: Chunk) returns (page: Page)
      requires Consistent() && fl.InUse(c)
      modifies fl`blocks
      ensures Consistent() && c in fl.nand && page == fl.nand[c]
      ensures |fl.blocks| == |old(fl.blocks)| && fl.blocks == old(fl.blocks)[c.block := fl.blocks[c.block]]
      ensures SameButHealth(old(fl.blocks)[c.block], fl.blocks[c.block])
    {
      ghost var b0 := fl.blocks;
      page := fl.nand[c];
      var eccError := fl.Fails();
      if eccError {
        fl.HandleChunkError(c.block, c);
        SameUse(b0, fl.blocks);
      }
    }

    lemma SameUse(b0: seq<Block>, b1: seq<Block>)
      requires Linked(fl.cps, b0, fl.soft, fl.nand, objs) && forall c: Chunk :: Used(b0, c) <==> Used(b1, c)
      ensures Linked(fl.cps, b1, fl.soft, fl.nand, objs)
    {
      forall id | id in objs ensures ObjOk(b1, fl.nand, id, objs[id]) {
        assert ObjOk(b0, fl.nand, id, objs[id]);
      }
    }

    ghost predicate Victim(b: nat)
      reads fl`blocks, fl`gcBlock
    {
      fl.IsBlock(b) && fl.blocks[b].state == Collecting && !fl.blocks[b].hasShrinkHdr && fl.gcBlock == b
    }

    /** Chunk c of the block being collected has been dealt with, and the block erased if it was the last. */
    ghost predicate Collected(was: seq<Block>, c: Chunk)
      reads fl`blocks, fl`gcBlock
    {
      && |fl.blocks| == |was| && fl.IsBlock(c.block)
      && (forall p {:trigger p in fl.blocks[c.block].bits} ::
           p in fl.blocks[c.block].bits <==> p in was[c.block].bits && p != c.page)
      && (if fl.blocks[c.block].bits == {}
          then (fl.blocks[c.block].state == Empty || fl.blocks[c.block].state == Dead) && fl.gcBlock == 0
          else Victim(c.block) && fl.blocks[c.block].hasSummary == was[c.block].hasSummary)
      && NoneStarted(was, c.block)
    }

    ghost predicate NoneStarted(was: seq<Block>, b: nat)
      reads fl`blocks
    {
      |fl.blocks| == |was|
        && forall x {:trigger fl.blocks[x]} ::
        0 <= x < |was| && x != b && fl.blocks[x].state == Collecting ==> was[x].state == Collecting
    }

    /** Delete a chunk of the block being collected. */
    method DelCollected(c: Chunk, markFlash: bool)
      requires fl.Valid() && fl.InUse(c) && !fl.IsSoft(c) && Victim(c.block)
      modifies fl`blocks, fl`nand, fl`nErased, fl`nFree, fl`blocksInCheckpt, fl`isCheckpointed, fl`gcBlock
      ensures fl.Valid() && Shrunk(old(fl.blocks), old(fl.nand), fl.blocks, fl.nand, c) && Collected(old(fl.blocks), c)
    {
      hide Flash.Stable;
      fl.ChunkDel(c, markFlash);
    }

    /** A chunk that belongs to no object holds a summary. */
    method DelSummary(c: Chunk)
      requires Consistent() && CleanupOk() && fl.InUse(c) && Victim(c.block) && c in fl.nand
        && fl.nand[c].tags.objId !in objs
      modifies fl`blocks, fl`nand, fl`nErased, fl`nFree, fl`blocksInCheckpt, fl`isCheckpointed, fl`gcBlock
      ensures Consistent() && AllKept(objs, old(fl.nand), objs, fl.nand) && Collected(old(fl.blocks), c)
    {
      hide Flash.Valid, Shrunk, Counted, Collected, Victim, AllKept;
      ghost var b0, n0 := fl.blocks, fl.nand;
      assert OwnerOk(fl.cps, c, n0[c], SoftIn(fl.soft, c), objs);
      SoftIsUsed();
      DelCollected(c, true);
      DroppedSummary(fl.cps, b0, n0, fl.blocks, fl.nand, fl.soft, objs, c);
      StaysShrunk(b0, n0, fl.blocks, fl.nand, c, fl.soft);
      CountedKept(b0, n0, fl.blocks, fl.nand, fl.soft, objs);
      SummaryUntouched(fl.cps, b0, n0, fl.blocks, fl.nand, fl.soft, objs, c);
    }

    lemma CollectedSameUse(b0: seq<Block>, b1: seq<Block>, c: Chunk)
      requires Collected(b1, c) && c.block < |b0| == |b1| && b1 == b0[c.block := b1[c.block]]
      requires b1[c.block].bits == b0[c.block].bits && b1[c.block].hasSummary == b0[c.block].hasSummary
      ensures Collected(b0, c)
    {}

    /** Throw away a data chunk of a soft-deleted file. */
    method DropSoftChunk(c: Chunk, id: nat)
      requires Consistent() && CleanupOk() && fl.InUse(c) && Victim(c.block) && c in fl.nand
        && fl.nand[c].tags.objId == id
      requires id in objs && objs[id].SoftDeleted() && fl.nand[c].tags.chunkId != 0
      modifies this`objs, this`cleanup, fl
      ensures Consistent() && CleanupOk() && AllKept(old(objs), old(fl.nand), objs, fl.nand)
        && Collected(old(fl.blocks), c)
      ensures |cleanup| <= |old(cleanup)| + 1
    {
      hide Flash.Valid, Shrunk, Counted, Collected, AllKept;
      ghost var b0, n0, soft0, objs0 := fl.blocks, fl.nand, fl.soft, objs;
      assert ObjOk(b0, n0, id, objs[id]);
      assert OwnerOk(fl.cps, c, n0[c], SoftIn(fl.soft, c), objs);
      fl.UnsoftenChunk(c);
      objs := objs[id := objs[id].(nDataChunks := objs[id].nDataChunks - 1)];
      if objs[id].nDataChunks <= 0 {
        cleanup := cleanup + [id];
      }
      ghost var b1 := fl.blocks;
      SoftIsUsed();
      DelCollected(c, false);
      SoftLess(soft0, fl.soft, c);
      ShrunkSameUse(b0, b1, n0, fl.blocks, fl.nand, c);
      DroppedSoft(fl.cps, b0, n0, fl.blocks, fl.nand, soft0, fl.soft, objs0, id, objs[id], c);
      StaysShrunk(b1, n0, fl.blocks, fl.nand, c, fl.soft);
      CountedDropped(b1, n0, fl.blocks, fl.nand, soft0, fl.soft, objs0, id, objs[id], c);
      SoftUntouched(fl.cps, b0, n0, fl.blocks, fl.nand, soft0, objs0, id, objs[id], c);
      CollectedSameUse(b0, b1, c);
    }

    /** The block being collected has not been touched. */
    ghost predicate StillVictim(was: seq<Block>, b: nat)
      reads fl`blocks, fl`gcBlock
    {
      && |fl.blocks| == |was| && Victim(b) && fl.blocks[b].bits == was[b].bits
        && fl.blocks[b].hasSummary == was[b].hasSummary
      && NoneStarted(was, b)
    }

    /** A chunk cannot be copied only if the device fails or no chunk is left, not even in the reserve. */
    predicate CannotCopy()
      reads fl
    {
      fl.faulty || !fl.HasRoom(true, 0)
    }

    /** Write a chunk somewhere else while its block is being collected; a failure changes nothing that matters. */
    method WriteCopy(content: Content, tags: Tags, c: Chunk) returns (r: Option<Chunk>)
      requires Consistent() && fl.InUse(c) && Victim(c.block)
      modifies fl`blocks, fl`nand, fl`nErased, fl`nFree, fl`blocksInCheckpt, fl`isCheckpointed, fl`gcBlock,
               fl`allocFinder, fl`seqNumber, fl`allocBlock, fl`allocPage
      ensures fl.Valid() && Grown(old(fl.blocks), old(fl.nand), fl.blocks, fl.nand, if r.Some? then {r.value} else {})
      ensures r.Some? ==> !old(fl.InUse(r.value)) && fl.Written(r.value, content, tags)
      ensures StillVictim(old(fl.blocks), c.block) && fl.InUse(c)
      ensures r.None? ==> CannotCopy()
    {
      hide Flash.Valid, Linked, Counted;
      r := fl.WriteNewChunk(content, tags, true, 0);
    }

    /** Copy a live chunk out of the block being collected, point the object to the copy and delete the original. */
    method CopyChunk(c: Chunk, page: Page) returns (ok: bool)
      requires Consistent() && CleanupOk() && fl.InUse(c) && Victim(c.block) && c in fl.nand && fl.nand[c] == page
      requires page.tags.objId in objs && !(objs[page.tags.objId].SoftDeleted() && page.tags.chunkId != 0)
      modifies this`objs, fl
      ensures Consistent() && CleanupOk() && AllKept(old(objs), old(fl.nand), objs, fl.nand)
      ensures if ok then Collected(old(fl.blocks), c) else StillVictim(old(fl.blocks), c.block)
      ensures !ok ==> CannotCopy()
    {
      hide Flash.Valid, Linked, Shrunk, Grown, Counted, Collected, AllKept, StillVictim, Rewritten;
      ghost var b0, n0, objs0 := fl.blocks, fl.nand, objs;
      var id, k := page.tags.objId, page.tags.chunkId;
      LiveChunk(fl.cps, b0, n0, fl.soft, objs, id, k, c);
      SoftIsUsed();
      var (content, tags) := Copied(page, objs[id]);
      var r := WriteCopy(content, tags, c);
      if r.None? {
        StillLinked(fl.cps, b0, n0, fl.blocks, fl.nand, fl.soft, objs);
        return false;
      }
      var to := r.value;
      ghost var b1, n1 := fl.blocks, fl.nand;
      VictimFacts(b0, c.block);
      if k == 0 {
        objs := objs[id := objs[id].(hdrChunk := Some(to), serial := tags.serial)];
      } else {
        objs := objs[id := objs[id].(chunkMap := objs[id].chunkMap[k := to])];
      }
      DelCollected(c, true);
      CopyLinked(fl.cps, b0, n0, b1, n1, fl.blocks, fl.nand, fl.soft, objs0, c, to, objs[id]);
      CollectedLater(b0, b1, c);
      ok := true;
    }

    lemma VictimFacts(was: seq<Block>, b: nat)
      requires StillVictim(was, b)
      ensures Victim(b) && b < |was| == |fl.blocks| && fl.blocks[b].bits == was[b].bits
        && fl.blocks[b].hasSummary == was[b].hasSummary
      ensures forall x {:trigger fl.blocks[x]} ::
        0 <= x < |was| && x != b && fl.blocks[x].state == Collecting ==> was[x].state == Collecting
    {}

    lemma CollectedLater(b0: seq<Block>, b1: seq<Block>, c: Chunk)
      requires Collected(b1, c) && c.block < |b0| == |b1|
      requires b1[c.block].bits == b0[c.block].bits && b1[c.block].hasSummary == b0[c.block].hasSummary
      requires forall x {:trigger b1[x]} ::
        0 <= x < |b0| && x != c.block && b1[x].state == Collecting ==> b0[x].state == Collecting
      ensures Collected(b0, c)
    {}

    /** One chunk of the block being collected: drop it if it is soft-deleted data, else write it elsewhere; then delete
        it. */
    method GcProcessChunk(c: Chunk) returns (ok: bool)
      requires Consistent() && CleanupOk() && fl.InUse(c) && Victim(c.block)
      modifies this`objs, this`cleanup, fl
      ensures Consistent() && CleanupOk() && AllKept(old(objs), old(fl.nand), objs, fl.nand)
      ensures if ok then Collected(old(fl.blocks), c) else StillVictim(old(fl.blocks), c.block)
      ensures !ok ==> CannotCopy()
      ensures |cleanup| <= |old(cleanup)| + 1
    {
      hide Flash.Valid, Linked, Counted, AllKept, Collected, StillVictim;
      ghost var b0 := fl.blocks;
      var page := RdChunkTags(c);
      ghost var b1 := fl.blocks;
      var id := page.tags.objId;
      if id !in objs {
        DelSummary(c);
        ok := true;
      } else if objs[id].SoftDeleted() && page.tags.chunkId != 0 {
        DropSoftChunk(c, id);
        ok := true;
      } else {
        ok := CopyChunk(c, page);
      }
      if ok {
        CollectedLater(b0, b1, c);
      } else {
        StillVictimLater(b0, b1, c.block);
      }
    }

    lemma StillVictimLater(b0: seq<Block>, b1: seq<Block>, b: nat)
      requires StillVictim(b1, b) && |b0| == |b1| && b1[b].bits == b0[b].bits && b1[b].hasSummary == b0[b].hasSummary
      requires forall x {:trigger b1[x]} ::
        0 <= x < |b0| && x != b && b1[x].state == Collecting ==> b0[x].state == Collecting
      ensures StillVictim(b0, b)
    {}

    /** How far the collection of a block has come: the block is given up once it has no chunk left. */
    ghost predicate Progress(was: seq<Block>, b: nat)
      reads fl`blocks, fl`gcBlock
    {
      && NoneStarted(was, b) && fl.IsBlock(b)
      && if fl.blocks[b].bits == {} then (fl.blocks[b].state == Empty || fl.blocks[b].state == Dead) && fl.gcBlock == 0
         else Victim(b) && fl.blocks[b].hasSummary == was[b].hasSummary
    }

    lemma ProgressMade(was: seq<Block>, b1: seq<Block>, c: Chunk)
      requires |was| == |b1|
        && (forall x {:trigger b1[x]} ::
           0 <= x < |was| && x != c.block && b1[x].state == Collecting ==> was[x].state == Collecting)
      requires Collected(b1, c) || StillVictim(b1, c.block)
      requires c.block < |b1| && b1[c.block].bits != {} && b1[c.block].hasSummary == was[c.block].hasSummary
      ensures Progress(was, c.block)
    {}

    /** Of the chunks in use a loop over the pages lo..hi leaves those outside. */
    ghost predicate LeftOutside(was: set<nat>, now: set<nat>, lo: nat, hi: int) {
      forall p {:trigger p in now} {:trigger p in was} :: p in now <==> p in was && !(lo <= p < hi)
    }

    /** The copying loop over a block, at most `copies` chunks of it, in the order of the pages: what it deals with goes
        out of use, all but the chunk that could not be copied, which is passed over. */
    method GcCopyLoop(b: nat, copies: nat) returns (ok: bool)
      requires Consistent() && CleanupOk() && Victim(b) && fl.blocks[b].bits != {} && |cleanup| <= gcChunk <= fl.cpb
      modifies this`objs, this`cleanup, this`gcChunk, fl
      ensures Consistent() && CleanupOk() && AllKept(old(objs), old(fl.nand), objs, fl.nand)
      ensures Progress(old(fl.blocks), b) && |cleanup| <= gcChunk <= fl.cpb && old(gcChunk) <= gcChunk
      ensures LeftOutside(old(fl.blocks)[b].bits, fl.blocks[b].bits, old(gcChunk), if ok then gcChunk else gcChunk - 1)
      ensures ok && copies >= fl.cpb && fl.blocks[b].bits != {} ==> gcChunk == fl.cpb
      ensures !ok ==> old(gcChunk) < gcChunk && gcChunk - 1 in fl.blocks[b].bits && CannotCopy()
      ensures old(gcChunk) == fl.cpb ==> fl.blocks == old(fl.blocks)
    {
      hide Flash.Valid, Linked, Counted, AllKept, Collected, StillVictim, LeftOutside;
      ok := true;
      var left := copies;
      ghost var b0, n0, bits := fl.blocks, fl.nand, fl.blocks[b].bits;
      NothingChanged();
      NoneLeftOutside(bits, gcChunk);
      while ok && gcChunk < fl.cpb && fl.blocks[b].state == Collecting && left > 0
        invariant Consistent() && CleanupOk() && AllKept(old(objs), n0, objs, fl.nand)
        invariant Progress(b0, b) && |cleanup| <= gcChunk <= fl.cpb && old(gcChunk) <= gcChunk
        invariant LeftOutside(bits, fl.blocks[b].bits, old(gcChunk), if ok then gcChunk else gcChunk - 1)
        invariant copies >= fl.cpb ==> left >= fl.cpb - gcChunk
        invariant !ok ==> old(gcChunk) < gcChunk && gcChunk - 1 in fl.blocks[b].bits && CannotCopy()
        invariant old(gcChunk) == fl.cpb ==> fl.blocks == b0
        decreases fl.cpb - gcChunk
      {
        ghost var b1, n1, objs1, page := fl.blocks, fl.nand, objs, gcChunk;
        if fl.InUse(Chunk(b, gcChunk)) {
          left := left - 1;
          ok := GcProcessChunk(Chunk(b, gcChunk));
          AllKeptTrans(old(objs), n0, objs1, n1, objs, fl.nand);
          ProgressMade(b0, b1, Chunk(b, page));
          BitsAfter(b1, Chunk(b, page), ok);
        }
        LeftOutsideNext(bits, b1[b].bits, fl.blocks[b].bits, old(gcChunk), page, ok);
        gcChunk := gcChunk + 1;
      }
    }

    lemma NoneLeftOutside(bits: set<nat>, lo: nat)
      ensures LeftOutside(bits, bits, lo, lo)
    {}

    lemma LeftOutsideNext(was: set<nat>, now: set<nat>, next: set<nat>, lo: nat, page: nat, ok: bool)
      requires LeftOutside(was, now, lo, page) && lo <= page
      requires if ok then forall p {:trigger p in next} {:trigger p in now} ::
        p in next <==> p in now && p != page else next == now
      ensures LeftOutside(was, next, lo, if ok then page + 1 else page)
    {}

    lemma BitsAfter(b1: seq<Block>, c: Chunk, ok: bool)
      requires c.block < |b1| && if ok then Collected(b1, c) else StillVictim(b1, c.block)
      ensures fl.IsBlock(c.block)
      ensures ok ==> forall p {:trigger p in fl.blocks[c.block].bits} {:trigger p in b1[c.block].bits} ::
        p in fl.blocks[c.block].bits <==> p in b1[c.block].bits && p != c.page
      ensures !ok ==> fl.blocks[c.block].bits == b1[c.block].bits
    {}

    lemma BitsBelow(b: nat)
      requires fl.Valid() && b < |fl.blocks|
      ensures forall p :: p in fl.blocks[b].bits ==> p < fl.cpb
    {
      fl.BitsInBlock(b);
    }

    lemma NothingChanged()
      requires Consistent()
      ensures AllKept(objs, fl.nand, objs, fl.nand)
    {
      SoftIsUsed();
      StillLinked(fl.cps, fl.blocks, fl.nand, fl.blocks, fl.nand, fl.soft, objs);
    }

    /** Blocks that were erased or given up are so still. */
    ghost predicate StillErased(was: seq<Block>)
      reads fl`blocks
    {
      |fl.blocks| == |was| && forall x {:trigger was[x]} {:trigger fl.blocks[x]} ::
        0 <= x < |was| && (was[x].state == Empty || was[x].state == Dead) ==> fl.blocks[x] == was[x]
    }

    lemma ShrunkStates(b0: seq<Block>, n0: Nand, n1: Nand, c: Chunk)
      requires Shrunk(b0, n0, fl.blocks, n1, c) && c.block < |b0| && fl.blocks[c.block].state != Collecting
      requires b0[c.block].state != Empty && b0[c.block].state != Dead
      ensures NoneStarted(b0, |b0|) && StillErased(b0)
    {}

    method DelHeader(c: Chunk)
      requires fl.Valid() && fl.InUse(c) && !fl.IsSoft(c) && fl.gcBlock == 0
      requires forall b {:trigger fl.blocks[b]} :: 0 <= b < |fl.blocks| ==> fl.blocks[b].state != Collecting
      modifies fl`blocks, fl`nand, fl`nErased, fl`nFree, fl`blocksInCheckpt, fl`isCheckpointed, fl`gcBlock
      ensures fl.Valid() && Shrunk(old(fl.blocks), old(fl.nand), fl.blocks, fl.nand, c) && fl.gcBlock == 0
      ensures NoneStarted(old(fl.blocks), |old(fl.blocks)|) && StillErased(old(fl.blocks))
    {
      hide Shrunk, Flash.Core, Flash.CheckptOk;
      ghost var b0, n0 := fl.blocks, fl.nand;
      fl.UsedState(c);
      fl.ChunkDel(c, true);
      ShrunkStates(b0, n0, fl.nand, c);
    }

    lemma AllRefl()
      ensures NoneStarted(fl.blocks, |fl.blocks|) && StillErased(fl.blocks)
    {}

    /** Remove an object that has no chunk left but its header. Having been deleted, it is in the deleted directory. */
    method GenericObjDel(id: nat)
      requires Consistent() && id in objs && objs[id].SoftDeleted() && objs[id].nDataChunks <= 0 && fl.gcBlock == 0
      requires forall b {:trigger fl.blocks[b]} :: 0 <= b < |fl.blocks| ==> fl.blocks[b].state != Collecting
      modifies this`objs, fl`blocks, fl`nand, fl`nErased, fl`nFree, fl`blocksInCheckpt, fl`isCheckpointed, fl`gcBlock
      ensures Consistent() && objs == old(objs) - {id} && AllKept(old(objs), old(fl.nand), objs, fl.nand)
      ensures fl.gcBlock == 0 && NoneStarted(old(fl.blocks), |old(fl.blocks)|) && StillErased(old(fl.blocks))
    {
      hide Flash.Valid, Shrunk, AllKept, NoneStarted, StillErased;
      AllRefl();
      ghost var b0, n0, objs0 := fl.blocks, fl.nand, objs;
      NoDataLeft(b0, n0, fl.soft, objs, id);
      SoftIsUsed();
      if objs[id].hdrChunk.Some? {
        HeaderFacts(fl.cps, b0, n0, fl.soft, objs, id);
        DelHeader(objs[id].hdrChunk.value);
        StaysShrunk(b0, n0, fl.blocks, fl.nand, objs[id].hdrChunk.value, fl.soft);
      }
      DroppedObj(fl.cps, b0, n0, fl.blocks, fl.nand, fl.soft, objs, id);
      objs := objs - {id};
      CountedKept(b0, n0, fl.blocks, fl.nand, fl.soft, objs0);
      CountedLess(fl.soft, fl.nand, objs0, id);
      ObjGoneKept(fl.cps, b0, n0, fl.blocks, fl.nand, fl.soft, objs0, id);
    }

    /** The clean-ups at the end of a collection. */
    method CleanUps()
      requires Consistent() && CleanupOk() && fl.gcBlock == 0
      requires forall b {:trigger fl.blocks[b]} :: 0 <= b < |fl.blocks| ==> fl.blocks[b].state != Collecting
      modifies this`objs, fl`blocks, fl`nand, fl`nErased, fl`nFree, fl`blocksInCheckpt, fl`isCheckpointed, fl`gcBlock
      ensures Consistent() && AllKept(old(objs), old(fl.nand), objs, fl.nand) && fl.gcBlock == 0
      ensures NoneStarted(old(fl.blocks), |old(fl.blocks)|) && StillErased(old(fl.blocks))
      ensures forall id :: id in cleanup ==> id !in objs
    {
      hide Flash.Valid, Linked, Counted, AllKept;
      NothingChanged();
      var i := 0;
      while i < |cleanup|
        invariant 0 <= i <= |cleanup| && Consistent() && CleanupOk() && fl.gcBlock == 0
        invariant AllKept(old(objs), old(fl.nand), objs, fl.nand) && NoneStarted(old(fl.blocks), |old(fl.blocks)|)
          && StillErased(old(fl.blocks))
        invariant forall j :: 0 <= j < i ==> cleanup[j] !in objs
      {
        if cleanup[i] in objs {
          ghost var objs1, n1 := objs, fl.nand;
          assert cleanup[i] in cleanup;
          GenericObjDel(cleanup[i]);
          AllKeptTrans(old(objs), old(fl.nand), objs1, n1, objs, fl.nand);
        }
        i := i + 1;
      }
    }

    /** Start collecting a block: mark it and drop its summary. */
    method StartCollecting(b: nat)
      requires Valid() && fl.gcBlock == b && b != 0
      modifies fl`blocks, fl`nFree
      ensures Consistent() && CleanupOk() && Victim(b) && NoneStarted(old(fl.blocks), b)
        && AllKept(objs, old(fl.nand), objs, fl.nand)
      ensures forall p: nat ::
        p in fl.blocks[b].bits <==> p in old(fl.blocks)[b].bits && (old(fl.blocks)[b].hasSummary ==> p < fl.cps)
      ensures fl.nand == old(fl.nand) && b < |old(fl.blocks)| && fl.blocks[b].hasSummary == old(fl.blocks)[b].hasSummary
    {
      hide Flash.Stable, AllKept;
      ghost var b0 := fl.blocks;
      NothingChanged();
      SoftInPlace(b);
      SoftIsUsed();
      fl.BitsInBlock(b);
      fl.SetBlock(b, fl.blocks[b].(state := Collecting, hasShrinkHdr := false));
      fl.SummaryGc(b);
      SummariesDropped(fl.cps, b0, fl.blocks, fl.nand, fl.soft, objs, b);
    }

    lemma SoftInPlace(b: nat)
      requires Consistent() && b < |fl.blocks|
      ensures b < |fl.soft| && forall p :: p in fl.soft[b] ==> fl.cps == 0 || p < fl.cps
    {
      SoftIsUsed();
      fl.BlocksAreOk();
      forall p | p in fl.soft[b] ensures fl.cps == 0 || p < fl.cps {
        var c := Chunk(b, p);
        assert SoftIn(fl.soft, c);
        assert OwnerOk(fl.cps, c, fl.nand[c], true, objs);
      }
    }

    /** Erase the block being collected if it has no chunk in use. */
    method EraseVictim(b: nat)
      requires Consistent() && Victim(b) && fl.blocks[b].bits == {}
      modifies fl`blocks, fl`nand, fl`nErased, fl`nFree, fl`blocksInCheckpt, fl`isCheckpointed, fl`gcBlock
      ensures Consistent() && AllKept(objs, old(fl.nand), objs, fl.nand) && NoneStarted(old(fl.blocks), b)
      ensures fl.gcBlock == 0 && fl.IsBlock(b) && (fl.blocks[b].state == Empty || fl.blocks[b].state == Dead)
    {
      hide Flash.Stable, AllKept;
      ghost var b0, n0 := fl.blocks, fl.nand;
      SoftIsUsed();
      fl.EraseUnused(b);
      SameUseKept(fl.cps, b0, n0, fl.blocks, fl.nand, fl.soft, objs);
    }

    /** The collection is to go on another time. */
    method ResumeLater(b: nat)
      requires Consistent() && CleanupOk() && Victim(b) && b != 0 && |cleanup| <= gcChunk <= fl.cpb
      requires forall x {:trigger fl.blocks[x]} :: 0 <= x < |fl.blocks| && x != b ==> fl.blocks[x].state != Collecting
      modifies fl`blocks
      ensures Valid() && |fl.blocks| == |old(fl.blocks)| && fl.blocks[b].bits == old(fl.blocks)[b].bits
      ensures fl.blocks[b].hasSummary == old(fl.blocks)[b].hasSummary
    {
      hide Flash.Stable;
      ghost var b0 := fl.blocks;
      fl.SetBlock(b, fl.blocks[b].(state := Full));
      SameUse(b0, fl.blocks);
    }

    lemma ProgressFacts(was: seq<Block>, b: nat)
      requires Progress(was, b)
      ensures NoneStarted(was, b) && fl.IsBlock(b)
      ensures if fl.blocks[b].bits == {}
              then fl.gcBlock == 0 && (fl.blocks[b].state == Empty || fl.blocks[b].state == Dead)
              else Victim(b) && b < |was| && fl.blocks[b].hasSummary == was[b].hasSummary
    {}

    lemma NoneStartedTrans(b0: seq<Block>, b1: seq<Block>, b: nat)
      requires |b0| == |b1| && NoneStarted(b1, b)
      requires forall x {:trigger b1[x]} ::
        0 <= x < |b0| && x != b && b1[x].state == Collecting ==> b0[x].state == Collecting
      requires forall x {:trigger b0[x]} :: 0 <= x < |b0| ==> b0[x].state != Collecting
      ensures |fl.blocks| == |b0|
        && forall x {:trigger fl.blocks[x]} :: 0 <= x < |fl.blocks| && x != b ==> fl.blocks[x].state != Collecting
    {}

    lemma NoneStartedFacts(was: seq<Block>, b: nat)
      requires NoneStarted(was, b)
      ensures |fl.blocks| == |was|
      ensures forall x {:trigger fl.blocks[x]} ::
        0 <= x < |was| && x != b && fl.blocks[x].state == Collecting ==> was[x].state == Collecting
    {}

    /** A chunk in use, the summary aside, lies before the place where the collection goes on. */
    ghost predicate PassedOver(b: nat)
      reads this`gcChunk, fl`blocks
    {
      b < |fl.blocks| && PassedOverIn(fl.blocks[b], gcChunk)
    }

    ghost predicate PassedOverIn(bi: Block, upTo: nat) {
      exists p :: p in bi.bits && p < upTo && (bi.hasSummary ==> p < fl.cps)
    }

    /** What is left behind after a loop over the pages from..upTo of a block that has lost its summary. */
    lemma LeftBehind(was: Block, start: set<nat>, bi: Block, from: nat, upTo: nat, ok: bool)
      requires bi.hasSummary == was.hasSummary || bi.bits == {}
      requires forall p: nat {:trigger p in start} {:trigger p in was.bits} ::
        p in start <==> p in was.bits && (was.hasSummary ==> p < fl.cps)
      requires LeftOutside(start, bi.bits, from, if ok then upTo else upTo - 1) && from <= upTo && (!ok ==>
           from < upTo && upTo - 1 in bi.bits)
      ensures PassedOverIn(bi, upTo) <==> !ok || PassedOverIn(was, from)
      ensures PassedOverIn(bi, upTo) ==> bi.bits != {}
      ensures upTo == fl.cpb && ok && bi.bits != {} && (forall p :: p in was.bits ==> p < fl.cpb) ==>
        PassedOverIn(was, from)
    {
      if PassedOverIn(was, from) {
        var p :| p in was.bits && p < from && (was.hasSummary ==> p < fl.cps);
        assert p in start && p in bi.bits;
      }
      if !ok {
        assert upTo - 1 in start;
      }
      if upTo == fl.cpb && ok && bi.bits != {} && (forall p :: p in was.bits ==> p < fl.cpb) {
        var p :| p in bi.bits;
        assert p in start && p in was.bits;
      }
    }

    lemma BeforeStart(b: nat)
      requires Valid() && fl.gcBlock == b && b != 0
      ensures b < |fl.blocks| && |cleanup| <= gcChunk <= fl.cpb && forall p :: p in fl.blocks[b].bits ==> p < fl.cpb
      ensures forall x {:trigger fl.blocks[x]} :: 0 <= x < |fl.blocks| ==> fl.blocks[x].state != Collecting
    {
      hide Flash.Valid, Linked, Counted;
      BitsBelow(b);
    }

    /** Take the chunks of a block out of use, all of them or at most five. */
    method CollectChunks(b: nat, wholeBlock: bool) returns (ok: bool)
      requires Valid() && fl.gcBlock == b && b != 0
      modifies this`objs, this`cleanup, this`gcChunk, fl
      ensures Consistent() && CleanupOk() && AllKept(old(objs), old(fl.nand), objs, fl.nand)
        && |cleanup| <= gcChunk <= fl.cpb
      ensures forall x {:trigger fl.blocks[x]} :: 0 <= x < |fl.blocks| && x != b ==> fl.blocks[x].state != Collecting
      ensures b < |fl.blocks|
      ensures if fl.blocks[b].bits == {}
              then fl.gcBlock == 0 && (fl.blocks[b].state == Empty || fl.blocks[b].state == Dead)
              else Victim(b)
      ensures wholeBlock ==> (fl.blocks[b].bits == {} <==> ok && !old(PassedOver(b)))
      ensures !ok || old(PassedOver(b)) ==> PassedOver(b) && fl.blocks[b].bits != {}
      ensures !ok ==> CannotCopy()
    {
      hide Flash.Valid, Linked, Counted, AllKept, Progress, NoneStarted, CleanupOk, LeftOutside, PassedOverIn;
      BeforeStart(b);
      ghost var b0, n0, was, from := fl.blocks, fl.nand, fl.blocks[b], gcChunk;
      ok := true;
      StartCollecting(b);
      ghost var b1, start := fl.blocks, fl.blocks[b].bits;
      NoneStartedFacts(b0, b);
      if fl.blocks[b].bits == {} {
        ghost var n1 := fl.nand;
        EraseVictim(b);
        AllKeptTrans(old(objs), n0, objs, n1, objs, fl.nand);
        NothingLeft(b, from);
      } else {
        ghost var objs1, n1 := objs, fl.nand;
        ok := GcCopyLoop(b, if wholeBlock then fl.cpb else 5);
        AllKeptTrans(old(objs), n0, objs1, n1, objs, fl.nand);
        ProgressFacts(b1, b);
      }
      NoneStartedTrans(b0, b1, b);
      LeftBehind(was, start, fl.blocks[b], from, gcChunk, ok);
    }

    lemma NothingLeft(b: nat, from: nat)
      requires fl.Valid() && fl.IsBlock(b) && (fl.blocks[b].state == Empty || fl.blocks[b].state == Dead)
      ensures fl.blocks[b].bits == {} && LeftOutside({}, fl.blocks[b].bits, from, from)
    {
      fl.BlocksAreOk();
      assert fl.BlocksOk();
    }

    /** The collection of a block is complete. */
    method Finish(b: nat)
      requires Consistent() && CleanupOk() && fl.gcBlock == 0 && b < |fl.blocks|
        && (fl.blocks[b].state == Empty || fl.blocks[b].state == Dead)
      requires forall x {:trigger fl.blocks[x]} :: 0 <= x < |fl.blocks| && x != b ==> fl.blocks[x].state != Collecting
      modifies this`objs, this`cleanup, this`gcChunk, fl
      ensures Valid() && AllKept(old(objs), old(fl.nand), objs, fl.nand) && fl.gcBlock == 0 && gcChunk == 0
        && cleanup == []
      ensures b < |fl.blocks| && (fl.blocks[b].state == Empty || fl.blocks[b].state == Dead)
    {
      hide Flash.Valid, Linked, Counted, AllKept, NoneStarted;
      ghost var b2 := fl.blocks;
      CleanUps();
      NoneStartedFacts(b2, |b2|);
      fl.gcBlock := 0;
      gcChunk := 0;
      cleanup := [];
    }

    /** Collect a block, all of it or at most five chunks. Whatever happens on the way, every object keeps its data, its
        chunk numbers and its header, but that what is left of a soft-deleted file may go altogether. */
    method GcBlock(b: nat, wholeBlock: bool) returns (ok: bool)
      requires Valid() && fl.gcBlock == b && b != 0
      modifies this`objs, this`cleanup, this`gcChunk, fl
      ensures Valid() && AllKept(old(objs), old(fl.nand), objs, fl.nand)
      ensures fl.gcBlock == b || (fl.gcBlock == 0 && gcChunk == 0 && cleanup == [])
      ensures fl.gcBlock == 0 ==> b < |fl.blocks| && (fl.blocks[b].state == Empty || fl.blocks[b].state == Dead)
      // A whole collection reclaims the block if and only if every copy succeeds and no chunk was passed over before.
      ensures wholeBlock ==> (fl.gcBlock == 0 <==> ok && !old(PassedOver(b)))
      // A chunk that could not be copied is passed over, and none that was passed over is dealt with here later.
      ensures !ok || old(PassedOver(b)) ==> fl.gcBlock == b && PassedOver(b)
      ensures !ok ==> CannotCopy()
    {
      hide Flash.Valid, Linked, Counted, AllKept, CleanupOk, PassedOverIn;
      ok := CollectChunks(b, wholeBlock);
      ghost var objs1, n1, b1 := objs, fl.nand, fl.blocks;
      if fl.blocks[b].state == Collecting {
        ResumeLater(b);
        SameBehind(b1[b], fl.blocks[b], gcChunk);
      } else {
        Finish(b);
        AllKeptTrans(old(objs), old(fl.nand), objs1, n1, objs, fl.nand);
      }
    }

    lemma SameBehind(was: Block, bi: Block, upTo: nat)
      requires bi.bits == was.bits && bi.hasSummary == was.hasSummary
      ensures PassedOverIn(bi, upTo) <==> PassedOverIn(was, upTo)
    {}

    /** Choose a block to collect. How good a choice it is is not modelled, only that the block is full. */
    method FindGcBlock() returns (b: nat)
      requires Valid()
      ensures b != 0 ==> fl.IsBlock(b) && fl.blocks[b].state == Full
    {
      b := *;
      if !fl.IsBlock(b) || fl.blocks[b].state != Full {
        b := 0;
      }
    }

    /** Garbage collection as every write starts with it: nobody can tell it from doing nothing. With a chunk passed
        over in the block being collected it goes on with that block, which it cannot reclaim. */
    method CheckGc()
      requires Valid()
      modifies this`objs, this`cleanup, this`gcChunk, fl
      ensures Valid() && AllKept(old(objs), old(fl.nand), objs, fl.nand)
      ensures old(Stuck()) ==> Stuck() && fl.gcBlock == old(fl.gcBlock)
    {
      hide Flash.Valid, Linked, Counted, AllKept, CleanupOk, PassedOverIn;
      NothingChanged();
      var tries, again := 0, true;
      while again
        invariant Valid() && AllKept(old(objs), old(fl.nand), objs, fl.nand) && tries <= 2 && (again ==> tries < 2)
        invariant old(Stuck()) ==> Stuck() && fl.gcBlock == old(fl.gcBlock)
        decreases 2 - tries
      {
        tries := tries + 1;
        var enough: bool := *;
        if enough {
          break;
        }
        if fl.gcBlock < 1 {
          StartNext();
        }
        ghost var objs1, n1 := objs, fl.nand;
        if fl.gcBlock > 0 {
          var aggressive: bool := *;
          var ok := GcBlock(fl.gcBlock, aggressive);
          AllKeptTrans(old(objs), old(fl.nand), objs1, n1, objs, fl.nand);
        }
        again := fl.nErased < fl.reserved && fl.gcBlock > 0 && tries < 2;
      }
    }

    /** A block is being collected and has a chunk that was passed over. */
    ghost predicate Stuck()
      reads this`gcChunk, fl`blocks, fl`gcBlock
    {
      fl.gcBlock > 0 && PassedOver(fl.gcBlock)
    }

    /** Start on another block. A block that was given up outside a collection may have left clean-ups on the list: they
        are forgotten, and the objects stay. */
    method StartNext()
      requires Valid() && fl.gcBlock == 0
      modifies this`cleanup, this`gcChunk, fl`gcBlock
      ensures Valid() && cleanup == [] && gcChunk == 0
      ensures fl.gcBlock != 0 ==> fl.IsBlock(fl.gcBlock) && fl.blocks[fl.gcBlock].state == Full
    {
      fl.gcBlock := FindGcBlock();
      gcChunk, cleanup := 0, [];
    }

    /** Write one chunk of a file. */
    method WrDataObj(id: nat, k: nat, bytes: seq<nat>, nBytes: nat, useReserve: bool, checkptBlocks: nat)
      returns (r: Option<Chunk>)
      requires Valid() && id in objs && objs[id].isFile && !objs[id].SoftDeleted() && k > 0
      modifies this`objs, this`cleanup, this`gcChunk, fl
      ensures Valid() && id in objs
      ensures r.None? ==> AllKept(old(objs), old(fl.nand), objs, fl.nand)
      ensures r.Some? ==> k in objs[id].chunkMap && objs[id].chunkMap[k] == r.value
      ensures r.Some? ==>
        r.value in fl.nand && fl.nand[r.value].content == Data(bytes) && fl.nand[r.value].tags.nBytes == nBytes
      ensures r.Some? ==> AllKept(Without(old(objs), id, k), old(fl.nand), Without(objs, id, k), fl.nand)
      // It fails only for lack of memory or of room, or because the device does.
      ensures r.None? ==> scarce || fl.faulty || !fl.HasRoom(useReserve, checkptBlocks)
    {
      hide Flash.Valid, Linked, Counted, AllKept, CleanupOk;
      CheckGc();
      StillThere(old(objs), old(fl.nand), id);
      ghost var objs1, n1 := objs, fl.nand;
      if k !in objs[id].chunkMap {
        var tnode: bool := *;
        if !tnode && scarce {
          return None;
        }
      }
      var serial := if k in objs[id].chunkMap then PrevSerial(id, k) + 1 else 1;
      r := PutChunk(id, k, Data(bytes), Tags(id, k, nBytes, serial, 0, false, false, 0), useReserve, checkptBlocks);
      if r.None? {
        AllKeptTrans(old(objs), old(fl.nand), objs1, n1, objs, fl.nand);
      } else {
        WithoutKept(old(objs), old(fl.nand), objs1, n1, id, k);
        AllKeptTrans(Without(old(objs), id, k), old(fl.nand), Without(objs1, id, k), n1, Without(objs, id, k), fl.nand);
      }
    }

    lemma StillThere(was: Objs, nand: Nand, id: nat)
      requires AllKept(was, nand, objs, fl.nand) && id in was && !was[id].SoftDeleted()
      ensures id in objs && objs[id].isFile == was[id].isFile && !objs[id].SoftDeleted()
    {}

    function PrevSerial(id: nat, k: nat): nat
      requires Consistent() && id in objs && k in objs[id].chunkMap
      reads this`objs, fl
    {
      assert ObjOk(fl.blocks, fl.nand, id, objs[id]);
      fl.nand[objs[id].chunkMap[k]].tags.serial
    }

    /** Write a chunk, put it into the file's chunk map and delete its predecessor. */
    method PutChunk(id: nat, k: nat, content: Content, tags: Tags, useReserve: bool, checkptBlocks: nat)
      returns (r: Option<Chunk>)
      requires Valid() && id in objs && objs[id].isFile && !objs[id].SoftDeleted() && k > 0
      requires content.Data? && tags.objId == id && tags.chunkId == k
      modifies this`objs, fl
      ensures Valid() && id in objs
      ensures r.None? ==> AllKept(old(objs), old(fl.nand), objs, fl.nand)
      ensures r.Some? ==> k in objs[id].chunkMap && objs[id].chunkMap[k] == r.value
      ensures r.Some? ==>
        r.value in fl.nand && fl.nand[r.value].content == content && fl.nand[r.value].tags.nBytes == tags.nBytes
      ensures r.Some? ==> AllKept(Without(old(objs), id, k), old(fl.nand), Without(objs, id, k), fl.nand)
      ensures r.None? ==> fl.faulty || !fl.HasRoom(useReserve, checkptBlocks)
      ensures !fl.faulty ==> (r.Some? <==> old(fl.WillHaveRoom(useReserve, checkptBlocks)))
    {
      hide Flash.Valid, Linked, Counted, AllKept, Grown, Shrunk;
      SoftIsUsed();
      ghost var b0, n0, objs0 := fl.blocks, fl.nand, objs;
      r := WriteQuietly(content, tags, useReserve, checkptBlocks);
      if r.None? {
        StillLinked(fl.cps, b0, n0, fl.blocks, fl.nand, fl.soft, objs);
        return;
      }
      var to := r.value;
      ghost var b1, n1 := fl.blocks, fl.nand;
      var o := objs[id];
      if k in o.chunkMap {
        var from := o.chunkMap[k];
        PointerFacts(b0, n0, objs0, id, k, from);
        UsedGrown(b0, n0, b1, n1, {to}, from);
        objs := objs[id := o.(chunkMap := o.chunkMap[k := to])];
        CleanupStays(objs0, id);
        DelQuietly(from);
        Overwritten(fl.cps, b0, n0, b1, n1, fl.blocks, fl.nand, fl.soft, objs0, id, k, from, to, objs[id], content,
            tags);
      } else {
        objs := objs[id := o.(chunkMap := o.chunkMap[k := to], nDataChunks := o.nDataChunks + 1)];
        CleanupStays(objs0, id);
        Appended(fl.cps, b0, n0, b1, n1, fl.soft, objs0, id, k, to, objs[id], content, tags);
      }
    }

    lemma PointerFacts(b0: seq<Block>, n0: Nand, objs0: Objs, id: nat, k: nat, c: Chunk)
      requires Linked(fl.cps, b0, fl.soft, n0, objs0) && id in objs0 && PointsTo(objs0[id], k, c)
      ensures Used(b0, c) && c in n0 && !SoftIn(fl.soft, c) && n0[c].tags.objId == id && n0[c].tags.chunkId == k
    {
      PointerTagged(fl.cps, b0, n0, fl.soft, objs0, id, k, c);
      assert OwnerOk(fl.cps, c, n0[c], SoftIn(fl.soft, c), objs0);
    }

    lemma CleanupStays(objs0: Objs, id: nat)
      requires (forall i {:trigger i in cleanup} ::
           i in cleanup && i in objs0 ==> objs0[i].SoftDeleted() && objs0[i].nDataChunks <= 0)
      requires id in objs0 && !objs0[id].SoftDeleted() && id in objs && objs == objs0[id := objs[id]]
      ensures CleanupOk()
    {}

    /** Write outside a collection. */
    method WriteQuietly(content: Content, tags: Tags, useReserve: bool, checkptBlocks: nat)
      returns (r: Option<Chunk>)
      requires fl.Valid() && GcOk()
      modifies fl`blocks, fl`nand, fl`nErased, fl`nFree, fl`blocksInCheckpt, fl`isCheckpointed, fl`gcBlock,
               fl`allocFinder, fl`seqNumber, fl`allocBlock, fl`allocPage
      ensures fl.Valid() && GcOk()
        && Grown(old(fl.blocks), old(fl.nand), fl.blocks, fl.nand, if r.Some? then {r.value} else {})
      ensures r.Some? ==> !old(fl.InUse(r.value)) && fl.Written(r.value, content, tags)
      ensures r.None? ==> fl.faulty || !fl.HasRoom(useReserve, checkptBlocks)
      ensures !fl.faulty ==> (r.Some? <==> old(fl.WillHaveRoom(useReserve, checkptBlocks)))
    {
      hide Flash.Valid;
      r := fl.WriteNewChunk(content, tags, useReserve, checkptBlocks);
    }

    /** Delete outside a collection. */
    method DelQuietly(c: Chunk)
      requires fl.Valid() && GcOk() && fl.InUse(c) && !fl.IsSoft(c)
      modifies fl`blocks, fl`nand, fl`nErased, fl`nFree, fl`blocksInCheckpt, fl`isCheckpointed, fl`gcBlock
      ensures fl.Valid() && GcOk() && Shrunk(old(fl.blocks), old(fl.nand), fl.blocks, fl.nand, c)
    {
      hide Flash.Core, Flash.CheckptOk;
      fl.UsedState(c);
      fl.ChunkDel(c, true);
    }

    /** Cut chunk k off a file. */
    method DelFileChunk(id: nat, k: nat)
      requires Valid() && id in objs && objs[id].isFile && !objs[id].SoftDeleted() && k in objs[id].chunkMap
      modifies this`objs, fl`blocks, fl`nand, fl`nErased, fl`nFree, fl`blocksInCheckpt, fl`isCheckpointed, fl`gcBlock
      ensures Valid() && id in objs && objs[id].chunkMap.Keys == old(objs)[id].chunkMap.Keys - {k}
      ensures AllKept(Without(old(objs), id, k), old(fl.nand), Without(objs, id, k), fl.nand)
    {
      hide Flash.Valid, Linked, Counted, AllKept, Shrunk;
      SoftIsUsed();
      ghost var b0, n0, objs0 := fl.blocks, fl.nand, objs;
      var o := objs[id];
      var from := o.chunkMap[k];
      MapFacts(b0, n0, objs0, id);
      PointerFacts(b0, n0, objs0, id, k, from);
      objs := objs[id := o.(chunkMap := o.chunkMap - {k}, nDataChunks := o.nDataChunks - 1)];
      CleanupStays(objs0, id);
      DelQuietly(from);
      CutOff(fl.cps, b0, n0, fl.blocks, fl.nand, fl.soft, objs0, id, k, from, objs[id]);
    }

    /** Soft-delete the data of a deleted file: the chunks stay where they are until their blocks are collected, but
        count as free from now on. */
    method SoftDelData(id: nat)
      requires Valid() && id in objs && objs[id].isFile && objs[id].deleted && !objs[id].softDel
      modifies this`objs, fl`blocks, fl`nFree, fl`soft
      ensures Valid() && id in objs && objs[id].SoftDeleted() && objs == old(objs)[id := objs[id]]
      ensures objs[id] == old(objs)[id].(softDel := true, chunkMap := map[])
      ensures forall c: Chunk {:trigger Used(fl.blocks, c)} :: Used(fl.blocks, c) <==> Used(old(fl.blocks), c)
      ensures fl.nFree == old(fl.nFree) + old(objs)[id].nDataChunks
    {
      hide Flash.Valid, Counted, Linked, SoftenedBy, GcOk;
      SoftIsUsed();
      ghost var b0, soft0, objs0, o := fl.blocks, fl.soft, objs, objs[id];
      ghost var done: set<nat> := {};
      CountIs(soft0, fl.nand, objs0, id);
      NoneSoft(soft0, o);
      assert o.chunkMap - {} == o.chunkMap;
      assert objs0 == objs0[id := o.(chunkMap := o.chunkMap - done)];
      while objs[id].chunkMap != map[]
        invariant fl.Valid() && GcOk() && objs == objs0[id := o.(chunkMap := o.chunkMap - done)]
          && done <= o.chunkMap.Keys
        invariant SoftenedBy(soft0, fl.soft, o, done) && SameShape(b0, fl.blocks) && fl.nFree == old(fl.nFree) + |done|
        decreases |objs[id].chunkMap|
      {
        var k :| k in objs[id].chunkMap;
        RemappedSize(objs[id].chunkMap, k, objs[id].chunkMap[k]);
        SoftDelEntry(id, k, b0, soft0, objs0, done);
        done := done + {k};
      }
      AllDone(o.chunkMap, done);
      MarkSoft(id, b0, soft0, objs0);
    }

    /** One entry of the tnode tree: its chunk becomes soft and the entry is cleared. */
    method SoftDelEntry(id: nat, k: nat, ghost b0: seq<Block>, ghost soft0: seq<set<nat>>, ghost objs0: Objs,
                        ghost done: set<nat>)
      requires fl.Valid() && GcOk() && Linked(fl.cps, b0, soft0, fl.nand, objs0) && SoftUsed(b0, soft0)
      requires id in objs0 && !objs0[id].SoftDeleted()
        && objs == objs0[id := objs0[id].(chunkMap := objs0[id].chunkMap - done)]
      requires SoftenedBy(soft0, fl.soft, objs0[id], done) && SameShape(b0, fl.blocks) && k in objs[id].chunkMap
      modifies this`objs, fl`blocks, fl`nFree, fl`soft
      ensures fl.Valid() && GcOk() && objs == objs0[id := objs0[id].(chunkMap := objs0[id].chunkMap - (done + {k}))]
      ensures SoftenedBy(soft0, fl.soft, objs0[id], done + {k}) && SameShape(b0, fl.blocks)
        && fl.nFree == old(fl.nFree) + 1
    {
      hide Flash.Valid, Linked, SoftenedBy;
      var c := objs[id].chunkMap[k];
      NotYetSoft(fl.cps, b0, soft0, fl.soft, fl.nand, objs0, id, done, k);
      ghost var soft1 := fl.soft;
      SameShapeUse(b0, fl.blocks, c);
      SoftDelCounted(c);
      SoftenOne(soft0, soft1, fl.soft, objs0[id], done, k);
      assert objs[id].chunkMap - {k} == objs0[id].chunkMap - (done + {k});
      objs := objs[id := objs[id].(chunkMap := objs[id].chunkMap - {k})];
    }

    method SoftDelCounted(c: Chunk)
      requires fl.Valid() && GcOk() && fl.InUse(c) && !fl.IsSoft(c)
      modifies fl`blocks, fl`nFree, fl`soft
      ensures fl.Valid() && GcOk() && SameShape(old(fl.blocks), fl.blocks) && fl.nFree == old(fl.nFree) + 1
      ensures c.block < |old(fl.soft)| && fl.soft == old(fl.soft)[c.block := old(fl.soft)[c.block] + {c.page}]
    {
      hide Flash.Stable;
      fl.SoftDelChunk(c);
    }

    method MarkSoft(id: nat, ghost b0: seq<Block>, ghost soft0: seq<set<nat>>, ghost objs0: Objs)
      requires fl.Valid() && GcOk() && Linked(fl.cps, b0, soft0, fl.nand, objs0) && Counted(soft0, fl.nand, objs0)
        && SoftUsed(b0, soft0)
      requires id in objs0 && objs0[id].isFile && objs0[id].deleted && !objs0[id].softDel
      requires objs == objs0[id := objs0[id].(chunkMap := map[])]
      requires SoftenedBy(soft0, fl.soft, objs0[id], objs0[id].chunkMap.Keys) && SameShape(b0, fl.blocks)
      modifies this`objs
      ensures Valid() && objs == objs0[id := objs0[id].(softDel := true, chunkMap := map[])]
    {
      hide Flash.Valid, Linked, SoftenedBy, Counted;
      objs := objs[id := objs[id].(softDel := true)];
      assert objs == objs0[id := objs0[id].(softDel := true, chunkMap := map[])];
      assert forall c: Chunk {:trigger Used(fl.blocks, c)} :: Used(fl.blocks, c) <==> Used(b0, c);
      SoftDeletedLinks(fl.cps, b0, fl.blocks, soft0, fl.soft, fl.nand, objs0, id, objs[id]);
    }

    lemma MapFacts(b0: seq<Block>, n0: Nand, objs0: Objs, id: nat)
      requires Linked(fl.cps, b0, fl.soft, n0, objs0) && id in objs0
      ensures forall k :: k in objs0[id].chunkMap ==> k > 0
    {
      assert ObjOk(b0, n0, id, objs0[id]);
    }
  }

  /** The same blocks in the same states with the same chunks in use. */
  ghost predicate SameShape(b0: seq<Block>, b1: seq<Block>) {
    |b1| == |b0|
      && forall b {:trigger b1[b]} {:trigger b0[b]} ::
      0 <= b < |b0| ==> b1[b].state == b0[b].state && b1[b].bits == b0[b].bits
  }

  lemma SameShapeUse(b0: seq<Block>, b1: seq<Block>, c: Chunk)
    requires SameShape(b0, b1)
    ensures Used(b1, c) <==> Used(b0, c)
  {}

  lemma NoneSoft(soft: seq<set<nat>>, o: Obj)
    ensures SoftenedBy(soft, soft, o, {})
  {}

  lemma AllDone(m: map<nat, Chunk>, done: set<nat>)
    requires done <= m.Keys && m - done == map[]
    ensures done == m.Keys
  {
    forall k | k in m ensures k in done {
      assert k !in done ==> k in m - done;
    }
  }

  /** Exactly the chunks `done` of a file have become soft. */
  ghost predicate SoftenedBy(soft0: seq<set<nat>>, soft: seq<set<nat>>, o: Obj, done: set<nat>) {
    && (forall c: Chunk {:trigger SoftIn(soft, c)} {:trigger SoftIn(soft0, c)} ::
         SoftIn(soft, c) <==> SoftIn(soft0, c) || exists k :: k in done && k in o.chunkMap && o.chunkMap[k] == c)
  }

  lemma NotYetSoft(cps: nat, blocks: seq<Block>, soft0: seq<set<nat>>, soft: seq<set<nat>>, nand: Nand, objs: Objs,
                   id: nat, done: set<nat>, k: nat)
    requires Linked(cps, blocks, soft0, nand, objs) && id in objs && k in objs[id].chunkMap && k !in done
      && SoftenedBy(soft0, soft, objs[id], done)
    ensures Used(blocks, objs[id].chunkMap[k]) && !SoftIn(soft, objs[id].chunkMap[k])
  {
    var o := objs[id];
    assert ObjOk(blocks, nand, id, o);
    NotSoft(cps, blocks, nand, soft0, objs, id, k, o.chunkMap[k]);
    forall j | j in done && j in o.chunkMap ensures o.chunkMap[j] != o.chunkMap[k] {
      assert Tagged(blocks, nand, o.chunkMap[j], id, j) && Tagged(blocks, nand, o.chunkMap[k], id, k);
    }
  }

  lemma SoftenOne(soft0: seq<set<nat>>, soft1: seq<set<nat>>, soft2: seq<set<nat>>, o: Obj, done: set<nat>, k: nat)
    requires SoftenedBy(soft0, soft1, o, done) && k in o.chunkMap
    requires o.chunkMap[k].block < |soft1|
      && soft2 == soft1[o.chunkMap[k].block := soft1[o.chunkMap[k].block] + {o.chunkMap[k].page}]
    ensures SoftenedBy(soft0, soft2, o, done + {k})
  {
    forall c: Chunk
      ensures SoftIn(soft2, c)
         <==> SoftIn(soft0, c) || exists j :: j in done + {k} && j in o.chunkMap && o.chunkMap[j] == c
    {
      assert SoftIn(soft2, c) <==> SoftIn(soft1, c) || c == o.chunkMap[k];
    }
  }

  /** With all its chunks soft, a file may be marked so. */
  lemma SoftDeletedLinks(cps: nat, b0: seq<Block>, b1: seq<Block>, soft0: seq<set<nat>>, soft1: seq<set<nat>>,
                         nand: Nand,
                         objs: Objs, id: nat, o': Obj)
    requires Linked(cps, b0, soft0, nand, objs) && Counted(soft0, nand, objs) && SoftUsed(b0, soft0)
    requires forall c: Chunk {:trigger Used(b1, c)} :: Used(b1, c) <==> Used(b0, c)
    requires id in objs && objs[id].isFile && objs[id].deleted && !objs[id].softDel
      && SoftenedBy(soft0, soft1, objs[id], objs[id].chunkMap.Keys)
    requires o' == objs[id].(softDel := true, chunkMap := map[])
    ensures Linked(cps, b1, soft1, nand, objs[id := o']) && Counted(soft1, nand, objs[id := o'])
  {
    var objs', o := objs[id := o'], objs[id];
    assert ObjOk(b0, nand, id, o);
    forall c: Chunk | Used(b1, c) ensures c in nand && OwnerOk(cps, c, nand[c], SoftIn(soft1, c), objs') {
      assert Used(b0, c);
      assert OwnerOk(cps, c, nand[c], SoftIn(soft0, c), objs);
      SoftNow(cps, b0, soft0, soft1, nand, objs, id, c);
    }
    forall i | i in objs' ensures ObjOk(b1, nand, i, objs'[i]) {
      assert ObjOk(b0, nand, i, objs[i]);
    }
    SoftDeletedCounts(cps, b0, soft0, soft1, nand, objs, id, o');
  }

  lemma SoftDeletedCounts(cps: nat, b0: seq<Block>, soft0: seq<set<nat>>, soft1: seq<set<nat>>, nand: Nand, objs: Objs,
                          id: nat, o': Obj)
    requires Linked(cps, b0, soft0, nand, objs) && Counted(soft0, nand, objs) && SoftUsed(b0, soft0)
    requires id in objs && objs[id].isFile && objs[id].deleted && !objs[id].softDel
      && SoftenedBy(soft0, soft1, objs[id], objs[id].chunkMap.Keys)
    requires o' == objs[id].(softDel := true, chunkMap := map[])
    ensures Counted(soft1, nand, objs[id := o'])
  {
    hide Linked, SoftenedBy, SoftChunks;
    var objs' := objs[id := o'];
    forall i | i in objs' ensures CountOk(soft1, nand, i, objs'[i]) {
      assert CountOk(soft0, nand, i, objs[i]);
      if i == id {
        OwnSoftChunks(cps, b0, soft0, soft1, nand, objs, id);
      } else {
        OtherSoftChunks(cps, b0, soft0, soft1, nand, objs, id, i);
      }
    }
  }

  /** The chunks that have become soft are the data chunks of the file. */
  lemma SoftNow(cps: nat, b0: seq<Block>, soft0: seq<set<nat>>, soft1: seq<set<nat>>, nand: Nand, objs: Objs, id: nat,
                c: Chunk)
    requires Linked(cps, b0, soft0, nand, objs) && id in objs && objs[id].isFile && !objs[id].SoftDeleted()
      && Used(b0, c) && c in nand
    requires SoftenedBy(soft0, soft1, objs[id], objs[id].chunkMap.Keys)
    ensures nand[c].tags.objId == id && nand[c].tags.chunkId != 0 ==> SoftIn(soft1, c) && !SoftIn(soft0, c)
    ensures nand[c].tags.objId == id && nand[c].tags.chunkId == 0 ==> !SoftIn(soft1, c)
    ensures nand[c].tags.objId != id ==> (SoftIn(soft1, c) <==> SoftIn(soft0, c))
  {
    var o := objs[id];
    assert ObjOk(b0, nand, id, o);
    assert OwnerOk(cps, c, nand[c], SoftIn(soft0, c), objs);
    forall k | k in o.chunkMap ensures Tagged(b0, nand, o.chunkMap[k], id, k) && k > 0 {}
    assert SoftIn(soft1, c) <==> SoftIn(soft0, c) || exists k :: k in o.chunkMap && o.chunkMap[k] == c;
  }

  lemma OwnSoftChunks(cps: nat, b0: seq<Block>, soft0: seq<set<nat>>, soft1: seq<set<nat>>, nand: Nand, objs: Objs,
                      id: nat)
    requires Linked(cps, b0, soft0, nand, objs) && SoftUsed(b0, soft0) && id in objs && objs[id].isFile
      && !objs[id].SoftDeleted()
    requires SoftenedBy(soft0, soft1, objs[id], objs[id].chunkMap.Keys)
    ensures |SoftChunks(soft1, nand, id)| == |objs[id].chunkMap|
  {
    var o := objs[id];
    assert ObjOk(b0, nand, id, o);
    NoneSoftYet(cps, b0, soft0, nand, objs, id);
    forall k | k in o.chunkMap ensures Tagged(b0, nand, o.chunkMap[k], id, k) {}
    forall c: Chunk ensures c in SoftChunks(soft1, nand, id) <==> c in o.chunkMap.Values {
      assert SoftIn(soft1, c) <==> SoftIn(soft0, c) || exists k :: k in o.chunkMap && o.chunkMap[k] == c;
    }
    assert SoftChunks(soft1, nand, id) == o.chunkMap.Values;
    InjectiveSize(nand, o.chunkMap);
  }

  /** A file that is not soft-deleted has no soft chunk. */
  lemma NoneSoftYet(cps: nat, blocks: seq<Block>, soft: seq<set<nat>>, nand: Nand, objs: Objs, id: nat)
    requires Linked(cps, blocks, soft, nand, objs) && SoftUsed(blocks, soft) && id in objs && !objs[id].SoftDeleted()
    ensures forall c: Chunk {:trigger SoftIn(soft, c)} :: SoftIn(soft, c) && c in nand ==> nand[c].tags.objId != id
  {
    assert ObjOk(blocks, nand, id, objs[id]);
    forall c: Chunk | SoftIn(soft, c) && c in nand ensures nand[c].tags.objId != id {
      assert OwnerOk(cps, c, nand[c], true, objs);
    }
  }

  lemma OtherSoftChunks(cps: nat, b0: seq<Block>, soft0: seq<set<nat>>, soft1: seq<set<nat>>, nand: Nand, objs: Objs,
                        id: nat, i: nat)
    requires Linked(cps, b0, soft0, nand, objs) && id in objs
      && SoftenedBy(soft0, soft1, objs[id], objs[id].chunkMap.Keys) && i != id
    ensures SoftChunks(soft1, nand, i) == SoftChunks(soft0, nand, i)
  {
    var o := objs[id];
    assert ObjOk(b0, nand, id, o);
    forall k | k in o.chunkMap ensures Tagged(b0, nand, o.chunkMap[k], id, k) {}
    forall c: Chunk ensures c in SoftChunks(soft1, nand, i) <==> c in SoftChunks(soft0, nand, i) {
      assert SoftIn(soft1, c) <==> SoftIn(soft0, c) || exists k :: k in o.chunkMap && o.chunkMap[k] == c;
    }
  }

  /** Different chunk numbers are different chunks. */
  lemma {:induction false} InjectiveSize(nand: Nand, m: map<nat, Chunk>)
    requires forall k :: k in m ==> m[k] in nand && nand[m[k]].tags.chunkId == k
    ensures |m.Values| == |m|
    decreases |m|
  {
    if m == map[] {
      assert m.Values == {};
    } else {
      var k :| k in m;
      var rest := m - {k};
      RemappedSize(m, k, m[k]);
      InjectiveSize(nand, rest);
      assert m.Values == rest.Values + {m[k]} by {
        forall c ensures c in m.Values <==> c in rest.Values + {m[k]} {
          if c in m.Values {
            var j :| j in m && m[j] == c;
            assert j != k ==> rest[j] == c;
          }
        }
      }
      assert m[k] !in rest.Values;
    }
  }

  lemma CountIs(soft: seq<set<nat>>, nand: Nand, objs: Objs, id: nat)
    requires Counted(soft, nand, objs) && id in objs && !objs[id].SoftDeleted()
    ensures objs[id].nDataChunks == |objs[id].chunkMap|
  {
    assert CountOk(soft, nand, id, objs[id]);
  }

  /** The objects with chunk k of one of them left out. */
  ghost function Without(objs: Objs, id: nat, k: nat): Objs {
    if id in objs then objs[id := objs[id].(chunkMap := objs[id].chunkMap - {k})] else objs
  }

  lemma WithoutKept(objs0: Objs, n0: Nand, objs1: Objs, n1: Nand, id: nat, k: nat)
    requires AllKept(objs0, n0, objs1, n1)
    ensures AllKept(Without(objs0, id, k), n0, Without(objs1, id, k), n1)
  {}

  lemma UsedGrown(b0: seq<Block>, n0: Nand, b1: seq<Block>, n1: Nand, more: set<Chunk>, c: Chunk)
    requires Grown(b0, n0, b1, n1, more) && Used(b0, c)
    ensures Used(b1, c)
  {}

  /** Chunk k has been overwritten: the rest of the objects is kept. */
  lemma Overwritten(cps: nat, b0: seq<Block>, n0: Nand, b1: seq<Block>, n1: Nand, b2: seq<Block>, n2: Nand,
                    soft: seq<set<nat>>,
                    objs: Objs, id: nat, k: nat, from: Chunk, to: Chunk, o': Obj, content: Content, tags: Tags)
    requires Linked(cps, b0, soft, n0, objs) && Counted(soft, n0, objs) && SoftUsed(b0, soft)
    requires Grown(b0, n0, b1, n1, {to}) && !Used(b0, to) && Shrunk(b1, n1, b2, n2, from)
    requires id in objs && k > 0 && objs[id].isFile && !objs[id].SoftDeleted() && PointsTo(objs[id], k, from)
    requires o' == objs[id].(chunkMap := objs[id].chunkMap[k := to])
    requires Used(b1, to) && !SoftIn(soft, to) && to in n1 && n1[to].content == content && SameOwner(n1[to].tags, tags)
      && (cps > 0 ==> to.page < cps)
    requires content.Data? && tags.objId == id && tags.chunkId == k
    ensures Linked(cps, b2, soft, n2, objs[id := o']) && Counted(soft, n2, objs[id := o']) && to in n2
      && n2[to] == n1[to]
    ensures AllKept(Without(objs, id, k), n0, Without(objs[id := o'], id, k), n2)
  {
    hide Grown, Shrunk, Counted, Linked, AllKept, FreshFor;
    PointerTagged(cps, b0, n0, soft, objs, id, k, from);
    NotSoft(cps, b0, n0, soft, objs, id, k, from);
    IsFresh(cps, b1, soft, n1, objs[id], id, k, to, content, tags);
    Rehomed(cps, b0, n0, b1, n1, b2, n2, soft, objs, id, k, from, to, o');
    RehomedCounts(b0, n0, b1, n1, b2, n2, soft, objs, id, k, from, to, o');
    WrittenThenDeleted(b0, n0, b1, n1, b2, n2, to, from);
    RestKept(cps, b0, n0, b2, n2, soft, objs, id, k, {from}, o');
  }

  lemma NotSoft(cps: nat, b0: seq<Block>, n0: Nand, soft: seq<set<nat>>, objs: Objs, id: nat, k: nat, c: Chunk)
    requires Linked(cps, b0, soft, n0, objs) && id in objs && PointsTo(objs[id], k, c)
    ensures !SoftIn(soft, c)
  {
    PointerTagged(cps, b0, n0, soft, objs, id, k, c);
    assert OwnerOk(cps, c, n0[c], SoftIn(soft, c), objs);
  }

  /** Only chunk k of one object has changed place. */
  lemma RestKept(cps: nat, b0: seq<Block>, n0: Nand, b2: seq<Block>, n2: Nand, soft: seq<set<nat>>, objs: Objs, id: nat,
                 k: nat, gone: set<Chunk>, o': Obj)
    requires Linked(cps, b0, soft, n0, objs) && id in objs && k > 0
    requires forall c: Chunk {:trigger Used(b0, c)} ::
      Used(b0, c) && c in n0 && c !in gone ==> c in n2 && n2[c] == n0[c]
    requires forall c :: c in gone ==> PointsTo(objs[id], k, c)
    requires o'.chunkMap - {k} == objs[id].chunkMap - {k}
      && o' == objs[id].(chunkMap := o'.chunkMap, nDataChunks := o'.nDataChunks)
    ensures AllKept(Without(objs, id, k), n0, Without(objs[id := o'], id, k), n2)
  {
    var w0, w1 := Without(objs, id, k), Without(objs[id := o'], id, k);
    forall i | i in w0 ensures ObjKept(n0, w0[i], n2, w1[i]) {
      assert ObjOk(b0, n0, i, objs[i]);
      if i != id {
        forall c, j: nat | c in gone ensures !PointsTo(objs[i], j, c) {
          PointerTagged(cps, b0, n0, soft, objs, id, k, c);
          OthersElsewhere(b0, n0, objs[i], i, id, c);
        }
        UntouchedObj(cps, b0, n0, b2, n2, soft, objs, gone, i);
      } else {
        RestOfObj(cps, b0, n0, n2, soft, objs, id, k, gone, o');
      }
    }
  }

  lemma RestOfObj(cps: nat, b0: seq<Block>, n0: Nand, n2: Nand, soft: seq<set<nat>>, objs: Objs, id: nat, k: nat,
                  gone: set<Chunk>, o': Obj)
    requires Linked(cps, b0, soft, n0, objs) && id in objs && k > 0
    requires forall c: Chunk {:trigger Used(b0, c)} ::
      Used(b0, c) && c in n0 && c !in gone ==> c in n2 && n2[c] == n0[c]
    requires forall c :: c in gone ==> PointsTo(objs[id], k, c)
    requires o'.chunkMap - {k} == objs[id].chunkMap - {k}
      && o' == objs[id].(chunkMap := o'.chunkMap, nDataChunks := o'.nDataChunks)
    ensures ObjKept(n0, objs[id].(chunkMap := objs[id].chunkMap - {k}), n2, o'.(chunkMap := o'.chunkMap - {k}))
  {
    var o := objs[id];
    assert ObjOk(b0, n0, id, o);
    forall c | c in gone ensures Tagged(b0, n0, c, id, k) {
      PointerTagged(cps, b0, n0, soft, objs, id, k, c);
    }
    forall j | j in o.chunkMap && j != k ensures SamePage(n0, o.chunkMap[j], n2, (o'.chunkMap - {k})[j]) {
      assert Tagged(b0, n0, o.chunkMap[j], id, j);
      assert (objs[id].chunkMap - {k})[j] == o.chunkMap[j];
    }
    if o.hdrChunk.Some? {
      var h := o.hdrChunk.value;
      assert OwnerOk(cps, h, n0[h], SoftIn(soft, h), objs);
    }
  }

  /** Chunk k has been written for the first time. */
  lemma Appended(cps: nat, b0: seq<Block>, n0: Nand, b1: seq<Block>, n1: Nand, soft: seq<set<nat>>,
                 objs: Objs, id: nat, k: nat, to: Chunk, o': Obj, content: Content, tags: Tags)
    requires Linked(cps, b0, soft, n0, objs) && Counted(soft, n0, objs) && SoftUsed(b0, soft)
    requires Grown(b0, n0, b1, n1, {to}) && !Used(b0, to)
    requires id in objs && k > 0 && objs[id].isFile && !objs[id].SoftDeleted() && k !in objs[id].chunkMap
    requires o' == objs[id].(chunkMap := objs[id].chunkMap[k := to], nDataChunks := objs[id].nDataChunks + 1)
    requires Used(b1, to) && !SoftIn(soft, to) && to in n1 && n1[to].content == content && SameOwner(n1[to].tags, tags)
      && (cps > 0 ==> to.page < cps)
    requires content.Data? && tags.objId == id && tags.chunkId == k
    ensures Linked(cps, b1, soft, n1, objs[id := o']) && Counted(soft, n1, objs[id := o'])
    ensures AllKept(Without(objs, id, k), n0, Without(objs[id := o'], id, k), n1)
  {
    hide *;
    UsedKept(b0, n0, b1, n1, {to});
    IsFresh(cps, b1, soft, n1, objs[id], id, k, to, content, tags);
    Pointed(soft, n0, objs, id, k, to, o');
    Homed(cps, b0, n0, b1, n1, soft, objs, id, k, to, o');
    StaysGrown(b0, n0, b1, n1, {to}, soft);
    RemappedSize(objs[id].chunkMap, k, to);
    CountedSame(b0, n0, b1, n1, soft, objs, id, o');
    assert o'.chunkMap - {k} == objs[id].chunkMap - {k};
    RestKept(cps, b0, n0, b1, n1, soft, objs, id, k, {}, o');
  }

  /** A file gets a chunk it had none for. */
  lemma Pointed(soft: seq<set<nat>>, nand: Nand, objs: Objs, id: nat, k: nat, to: Chunk, o': Obj)
    requires Counted(soft, nand, objs) && id in objs && k > 0 && !objs[id].SoftDeleted() && k !in objs[id].chunkMap
    requires o' == objs[id].(chunkMap := objs[id].chunkMap[k := to], nDataChunks := objs[id].nDataChunks + 1)
    ensures (forall c: Chunk :: !PointsTo(objs[id], k, c)) && Repointed(objs[id], o', k, to)
    ensures !o'.SoftDeleted() && objs[id].nDataChunks == |objs[id].chunkMap|
  {
    assert CountOk(soft, nand, id, objs[id]);
  }

  lemma UsedKept(b0: seq<Block>, n0: Nand, b1: seq<Block>, n1: Nand, more: set<Chunk>)
    requires Grown(b0, n0, b1, n1, more)
    ensures forall c: Chunk {:trigger Used(b0, c)} :: Used(b0, c) && c in n0 ==> c in n1 && n1[c] == n0[c]
  {}

  /** Chunk k has been cut off. */
  lemma CutOff(cps: nat, b0: seq<Block>, n0: Nand, b1: seq<Block>, n1: Nand, soft: seq<set<nat>>,
               objs: Objs, id: nat, k: nat, from: Chunk, o': Obj)
    requires Linked(cps, b0, soft, n0, objs) && Counted(soft, n0, objs) && SoftUsed(b0, soft)
      && Shrunk(b0, n0, b1, n1, from)
    requires id in objs && k > 0 && !objs[id].SoftDeleted() && PointsTo(objs[id], k, from)
    requires o' == objs[id].(chunkMap := objs[id].chunkMap - {k}, nDataChunks := objs[id].nDataChunks - 1)
    ensures Linked(cps, b1, soft, n1, objs[id := o']) && Counted(soft, n1, objs[id := o'])
    ensures AllKept(Without(objs, id, k), n0, Without(objs[id := o'], id, k), n1)
  {
    Gone(b0, n0, b1, n1, from, cps, soft, objs);
    hide Linked, AllKept, Shrunk;
    NotSoft(cps, b0, n0, soft, objs, id, k, from);
    DroppedData(cps, b0, n0, b1, n1, soft, objs, id, k, o', from);
    StaysShrunk(b0, n0, b1, n1, from, soft);
    assert CountOk(soft, n0, id, objs[id]);
    RemappedSize(objs[id].chunkMap, k, from);
    CountedSame(b0, n0, b1, n1, soft, objs, id, o');
    RestKept(cps, b0, n0, b1, n1, soft, objs, id, k, {from}, o');
  }

  /** Summary chunks, and only those, have gone out of use. */
  lemma LinkedFewer(cps: nat, b0: seq<Block>, n0: Nand, b1: seq<Block>, n1: Nand, soft: seq<set<nat>>, objs: Objs)
    requires Linked(cps, b0, soft, n0, objs) && Counted(soft, n0, objs) && SoftUsed(b0, soft)
    requires forall c: Chunk {:trigger Used(b1, c)} ::
      Used(b1, c) ==> Used(b0, c) && (c in n0 <==> c in n1) && (c in n0 ==> n1[c] == n0[c])
    requires forall c: Chunk {:trigger Used(b1, c)} {:trigger Used(b0, c)} ::
      Used(b0, c) && !Used(b1, c) ==> c in n0 && n0[c].tags.objId == SUMMARY_ID
    ensures Linked(cps, b1, soft, n1, objs) && Counted(soft, n1, objs) && AllKept(objs, n0, objs, n1)
  {
    hide ObjKept;
    forall c: Chunk | Used(b0, c) && !Used(b1, c) ensures !SoftIn(soft, c)
      && (forall id, k: nat :: id in objs ==> !PointsTo(objs[id], k, c)) {
      assert OwnerOk(cps, c, n0[c], SoftIn(soft, c), objs);
      forall id, k: nat | id in objs ensures !PointsTo(objs[id], k, c) {
        assert ObjOk(b0, n0, id, objs[id]);
        OthersElsewhere(b0, n0, objs[id], id, SUMMARY_ID, c);
      }
    }
    var gone: set<Chunk> := set c | c in n0.Keys && Used(b0, c) && !Used(b1, c);
    forall id | id in objs ensures ObjOk(b1, n1, id, objs[id]) && ObjKept(n0, objs[id], n1, objs[id]) {
      PointersStay(b0, n0, b1, n1, id, objs[id]);
      UntouchedObj(cps, b0, n0, b1, n1, soft, objs, gone, id);
    }
    forall c: Chunk | SoftIn(soft, c) ensures Used(b1, c) && Used(b0, c) {
      assert Used(b0, c);
    }
    CountedKept(b0, n0, b1, n1, soft, objs);
  }

  lemma PointersStay(b0: seq<Block>, n0: Nand, b1: seq<Block>, n1: Nand, id: nat, o: Obj)
    requires ObjOk(b0, n0, id, o)
    requires forall c: Chunk {:trigger Used(b1, c)} ::
      Used(b1, c) ==> Used(b0, c) && (c in n0 <==> c in n1) && (c in n0 ==> n1[c] == n0[c])
    requires forall c: Chunk, k: nat {:trigger PointsTo(o, k, c)} :: PointsTo(o, k, c) && Used(b0, c) ==> Used(b1, c)
    ensures ObjOk(b1, n1, id, o)
  {
    forall k | k in o.chunkMap ensures Tagged(b1, n1, o.chunkMap[k], id, k) {
      assert PointsTo(o, k, o.chunkMap[k]);
    }
    if o.hdrChunk.Some? {
      assert PointsTo(o, 0, o.hdrChunk.value);
    }
  }

  lemma SameUseKept(cps: nat, b0: seq<Block>, n0: Nand, b1: seq<Block>, n1: Nand, soft: seq<set<nat>>, objs: Objs)
    requires Linked(cps, b0, soft, n0, objs) && Counted(soft, n0, objs) && SoftUsed(b0, soft)
    requires forall c: Chunk {:trigger Used(b1, c)} :: Used(b1, c) <==> Used(b0, c)
    requires forall c: Chunk {:trigger Used(b1, c)} ::
      Used(b1, c) ==> (c in n0 <==> c in n1) && (c in n0 ==> n1[c] == n0[c])
    ensures Linked(cps, b1, soft, n1, objs) && Counted(soft, n1, objs) && AllKept(objs, n0, objs, n1)
  {
    hide Linked, Counted, AllKept;
    LinkedFewer(cps, b0, n0, b1, n1, soft, objs);
  }

  /** The chunks behind those a summary describes hold the summary. */
  lemma SummariesDropped(cps: nat, b0: seq<Block>, b1: seq<Block>, nand: Nand, soft: seq<set<nat>>, objs: Objs, b: nat)
    requires Linked(cps, b0, soft, nand, objs) && Counted(soft, nand, objs) && SoftUsed(b0, soft)
    requires b < |b0| == |b1| && (forall x {:trigger b1[x]} :: 0 <= x < |b0| && x != b ==> b1[x] == b0[x])
    requires b0[b].hasSummary ==> cps > 0
    requires forall p: nat :: p in b1[b].bits <==> p in b0[b].bits && (b0[b].hasSummary ==> p < cps)
    ensures Linked(cps, b1, soft, nand, objs) && Counted(soft, nand, objs) && AllKept(objs, nand, objs, nand)
  {
    hide AllKept, Counted, ObjOk;
    forall c: Chunk | Used(b0, c) && !Used(b1, c) ensures c in nand && nand[c].tags.objId == SUMMARY_ID {
      assert OwnerOk(cps, c, nand[c], SoftIn(soft, c), objs);
    }
    LinkedFewer(cps, b0, nand, b1, nand, soft, objs);
  }

  lemma CountedLess(soft: seq<set<nat>>, nand: Nand, objs: Objs, id: nat)
    requires Counted(soft, nand, objs)
    ensures Counted(soft, nand, objs - {id})
  {
    forall i | i in objs - {id} ensures CountOk(soft, nand, i, (objs - {id})[i]) {
      assert CountOk(soft, nand, i, objs[i]);
    }
  }

  lemma NoDataLeft(blocks: seq<Block>, nand: Nand, soft: seq<set<nat>>, objs: Objs, id: nat)
    requires id in objs && ObjOk(blocks, nand, id, objs[id]) && CountOk(soft, nand, id, objs[id])
    requires objs[id].SoftDeleted() && objs[id].nDataChunks <= 0
    ensures objs[id].chunkMap == map[] && SoftChunks(soft, nand, id) == {}
  {}

  lemma HeaderFacts(cps: nat, blocks: seq<Block>, nand: Nand, soft: seq<set<nat>>, objs: Objs, id: nat)
    requires Linked(cps, blocks, soft, nand, objs) && id in objs && objs[id].hdrChunk.Some?
    ensures var h := objs[id].hdrChunk.value; Used(blocks, h) && h in nand && !SoftIn(soft, h)
  {
    assert ObjOk(blocks, nand, id, objs[id]);
    var h := objs[id].hdrChunk.value;
    assert OwnerOk(cps, h, nand[h], SoftIn(soft, h), objs);
  }

  lemma ObjGoneKept(cps: nat, b0: seq<Block>, n0: Nand, b1: seq<Block>, n1: Nand, soft: seq<set<nat>>, objs: Objs,
                    id: nat)
    requires Linked(cps, b0, soft, n0, objs) && id in objs && objs[id].SoftDeleted()
    requires if objs[id].hdrChunk.Some? then Shrunk(b0, n0, b1, n1, objs[id].hdrChunk.value) else b1 == b0 && n1 == n0
    ensures AllKept(objs, n0, objs - {id}, n1)
  {
    hide ObjKept;
    assert ObjOk(b0, n0, id, objs[id]);
    forall i | i in objs && i != id ensures ObjKept(n0, objs[i], n1, (objs - {id})[i]) {
      assert ObjOk(b0, n0, i, objs[i]);
      if objs[id].hdrChunk.Some? {
        OthersElsewhere(b0, n0, objs[i], i, id, objs[id].hdrChunk.value);
        UntouchedObj(cps, b0, n0, b1, n1, soft, objs, {objs[id].hdrChunk.value}, i);
      } else {
        UntouchedObj(cps, b0, n0, b1, n1, soft, objs, {}, i);
      }
    }
  }

  /** The page as the collector copies it. */
  function Copied(page: Page, o: Obj): (r: (Content, Tags))
    requires page.tags.chunkId == 0 ==> page.content.Header?
    ensures SameOwner(page.tags, r.1)
  {
    var t := page.tags.(serial := page.tags.serial + 1);
    if page.tags.chunkId == 0 then
      (Rewritten(page.content, o),
          t.(extraIsShrink := false, extraShadows := false,
            extraFileSize := if o.isFile then o.fileSize else t.extraFileSize))
    else (page.content, t)
  }

  /** A chunk with the tags of a live object is where the object points to. */
  lemma LiveChunk(cps: nat, blocks: seq<Block>, nand: Nand, soft: seq<set<nat>>, objs: Objs, id: nat, k: nat, c: Chunk)
    requires Linked(cps, blocks, soft, nand, objs) && Used(blocks, c) && c in nand && nand[c].tags.objId == id
      && nand[c].tags.chunkId == k
    requires id in objs && !(objs[id].SoftDeleted() && k != 0)
    ensures PointsTo(objs[id], k, c) && !SoftIn(soft, c) && (cps > 0 ==> c.page < cps)
    ensures if k == 0 then nand[c].content.Header? else nand[c].content.Data? && objs[id].isFile
  {
    assert OwnerOk(cps, c, nand[c], SoftIn(soft, c), objs);
    assert ObjOk(blocks, nand, id, objs[id]);
  }

  lemma IsFresh(cps: nat, blocks: seq<Block>, soft: seq<set<nat>>, nand: Nand, o: Obj, id: nat, k: nat, c: Chunk,
                content: Content, tags: Tags)
    requires Used(blocks, c) && !SoftIn(soft, c) && c in nand && nand[c].content == content
      && SameOwner(nand[c].tags, tags) && (cps > 0 ==> c.page < cps)
    requires tags.objId == id && tags.chunkId == k
      && (if k == 0 then content.Header? else content.Data? && o.isFile && !o.SoftDeleted())
    ensures FreshFor(cps, blocks, soft, nand, o, id, k, c)
  {}

  lemma IsRepointed(o: Obj, o': Obj, k: nat, c: Chunk)
    requires if k == 0 then o' == o.(hdrChunk := Some(c), serial := o'.serial)
             else o' == o.(chunkMap := o.chunkMap[k := c], nDataChunks := o'.nDataChunks)
    ensures Repointed(o, o', k, c)
  {}

  lemma StillLinked(cps: nat, b0: seq<Block>, n0: Nand, b1: seq<Block>, n1: Nand, soft: seq<set<nat>>, objs: Objs)
    requires Linked(cps, b0, soft, n0, objs) && SoftUsed(b0, soft) && Counted(soft, n0, objs)
      && Grown(b0, n0, b1, n1, {})
    ensures Linked(cps, b1, soft, n1, objs) && Counted(soft, n1, objs) && AllKept(objs, n0, objs, n1)
  {
    LinkedGrown(cps, b0, n0, b1, n1, soft, objs);
    StaysGrown(b0, n0, b1, n1, {}, soft);
    CountedKept(b0, n0, b1, n1, soft, objs);
    hide ObjKept;
    forall id | id in objs ensures ObjKept(n0, objs[id], n1, objs[id]) {
      UntouchedObj(cps, b0, n0, b1, n1, soft, objs, {}, id);
    }
  }

  lemma RehomedCounts(b0: seq<Block>, n0: Nand, b1: seq<Block>, n1: Nand, b2: seq<Block>, n2: Nand, soft: seq<set<nat>>,
                      objs: Objs, id: nat, k: nat, from: Chunk, to: Chunk, o': Obj)
    requires Counted(soft, n0, objs) && SoftUsed(b0, soft) && !SoftIn(soft, from)
    requires Grown(b0, n0, b1, n1, {to}) && Shrunk(b1, n1, b2, n2, from)
    requires id in objs && PointsTo(objs[id], k, from) && Repointed(objs[id], o', k, to)
      && o'.nDataChunks == objs[id].nDataChunks
    ensures Counted(soft, n2, objs[id := o'])
  {
    assert CountOk(soft, n0, id, objs[id]);
    StaysGrown(b0, n0, b1, n1, {to}, soft);
    assert SoftUsed(b1, soft) by {
      forall c: Chunk | SoftIn(soft, c) ensures Used(b1, c) {
        assert Used(b0, c);
      }
    }
    StaysShrunk(b1, n1, b2, n2, from, soft);
    StaysTrans(b0, n0, b1, n1, b2, n2, soft);
    RemappedSize(objs[id].chunkMap, k, to);
    CountedSame(b0, n0, b2, n2, soft, objs, id, o');
  }

  /** After a copy everything is linked and counted as before. */
  lemma CopyLinked(cps: nat, b0: seq<Block>, n0: Nand, b1: seq<Block>, n1: Nand, b2: seq<Block>, n2: Nand,
                   soft: seq<set<nat>>,
                   objs: Objs, from: Chunk, to: Chunk, o': Obj)
    requires Linked(cps, b0, soft, n0, objs) && Counted(soft, n0, objs) && SoftUsed(b0, soft)
    requires Grown(b0, n0, b1, n1, {to}) && !Used(b0, to) && Shrunk(b1, n1, b2, n2, from) && Used(b0, from)
      && from in n0
    requires var id, k := n0[from].tags.objId, n0[from].tags.chunkId;
             && id in objs && !(objs[id].SoftDeleted() && k != 0) && (k == 0 ==> n0[from].content.Header?)
             && o' == (if k == 0 then objs[id].(hdrChunk := Some(to), serial := o'.serial)
                       else objs[id].(chunkMap := objs[id].chunkMap[k := to]))
             && to in n1 && n1[to].content == Copied(n0[from], objs[id]).0
               && SameOwner(n1[to].tags, Copied(n0[from], objs[id]).1)
    requires Used(b1, to) && !SoftIn(soft, to) && (cps > 0 ==> to.page < cps)
    ensures Linked(cps, b2, soft, n2, objs[n0[from].tags.objId := o'])
      && Counted(soft, n2, objs[n0[from].tags.objId := o'])
    ensures AllKept(objs, n0, objs[n0[from].tags.objId := o'], n2)
  {
    hide Linked, Grown, Shrunk, Counted, AllKept, Repointed, FreshFor;
    var id, k := n0[from].tags.objId, n0[from].tags.chunkId;
    var (content, tags) := Copied(n0[from], objs[id]);
    LiveChunk(cps, b0, n0, soft, objs, id, k, from);
    IsFresh(cps, b1, soft, n1, objs[id], id, k, to, content, tags);
    IsRepointed(objs[id], o', k, to);
    Rehomed(cps, b0, n0, b1, n1, b2, n2, soft, objs, id, k, from, to, o');
    RehomedCounts(b0, n0, b1, n1, b2, n2, soft, objs, id, k, from, to, o');
    CopyKept(cps, b0, n0, b1, n1, b2, n2, soft, objs, id, k, from, to, o');
  }

  /** A copied chunk holds what the original held. */
  lemma CopyKept(cps: nat, b0: seq<Block>, n0: Nand, b1: seq<Block>, n1: Nand, b2: seq<Block>, n2: Nand,
                 soft: seq<set<nat>>,
                 objs: Objs, id: nat, k: nat, from: Chunk, to: Chunk, o': Obj)
    requires Linked(cps, b0, soft, n0, objs) && Grown(b0, n0, b1, n1, {to}) && !Used(b0, to) && Used(b1, to) && to in n1
    requires Shrunk(b1, n1, b2, n2, from) && Used(b0, from) && from in n0
    requires id in objs && PointsTo(objs[id], k, from) && Repointed(objs[id], o', k, to)
    requires o'.deleted == objs[id].deleted && o'.softDel == objs[id].softDel && o'.fileSize == objs[id].fileSize
    requires n1[to].tags.nBytes == n0[from].tags.nBytes
    requires if k == 0 then n0[from].content.Header? && n1[to].content == Rewritten(n0[from].content, objs[id])
      else n1[to].content == n0[from].content
    ensures AllKept(objs, n0, objs[id := o'], n2)
  {
    WrittenThenDeleted(b0, n0, b1, n1, b2, n2, to, from);
    hide Grown, Shrunk;
    var objs' := objs[id := o'];
    forall i | i in objs ensures ObjKept(n0, objs[i], n2, objs'[i]) {
      assert ObjOk(b0, n0, i, objs[i]);
      if i != id {
        PointerTagged(cps, b0, n0, soft, objs, id, k, from);
        OthersElsewhere(b0, n0, objs[i], i, id, from);
        UntouchedObj(cps, b0, n0, b2, n2, soft, objs, {from}, i);
      } else {
        CopiedObj(cps, b0, n0, b2, n2, soft, objs, id, k, from, to, o');
      }
    }
  }

  lemma CopiedObj(cps: nat, b0: seq<Block>, n0: Nand, b2: seq<Block>, n2: Nand, soft: seq<set<nat>>,
                  objs: Objs, id: nat, k: nat, from: Chunk, to: Chunk, o': Obj)
    requires Linked(cps, b0, soft, n0, objs) && Replaced(b0, n0, b2, n2, to, from) && to in n2 && from in n0
    requires id in objs && PointsTo(objs[id], k, from) && Repointed(objs[id], o', k, to)
    requires o'.deleted == objs[id].deleted && o'.softDel == objs[id].softDel && o'.fileSize == objs[id].fileSize
    requires n2[to].tags.nBytes == n0[from].tags.nBytes
    requires if k == 0 then n0[from].content.Header? && n2[to].content == Rewritten(n0[from].content, objs[id])
      else n2[to].content == n0[from].content
    ensures ObjKept(n0, objs[id], n2, o')
  {
    var o := objs[id];
    assert ObjOk(b0, n0, id, o);
    forall j | j in o.chunkMap ensures SamePage(n0, o.chunkMap[j], n2, o'.chunkMap[j]) {
      assert Tagged(b0, n0, o.chunkMap[j], id, j);
      assert Tagged(b0, n0, from, id, k);
    }
    if k != 0 && o.hdrChunk.Some? {
      var h := o.hdrChunk.value;
      assert OwnerOk(cps, h, n0[h], SoftIn(soft, h), objs);
      assert Tagged(b0, n0, from, id, k);
    }
  }

  lemma SoftLess(soft: seq<set<nat>>, soft': seq<set<nat>>, c: Chunk)
    requires c.block < |soft| && soft' == soft[c.block := soft[c.block] - {c.page}]
    ensures !SoftIn(soft', c)
    ensures forall x: Chunk {:trigger SoftIn(soft', x)} :: x != c ==> (SoftIn(soft', x) <==> SoftIn(soft, x))
  {}

  lemma ShrunkSameUse(b0: seq<Block>, b1: seq<Block>, n0: Nand, b2: seq<Block>, n2: Nand, c: Chunk)
    requires Shrunk(b1, n0, b2, n2, c)
    requires c.block < |b0| == |b1| && b1 == b0[c.block := b1[c.block]] && b1[c.block].bits == b0[c.block].bits
    ensures Shrunk(b0, n0, b2, n2, c)
  {
    assert forall x: Chunk :: Used(b1, x) <==> Used(b0, x);
  }

  lemma SummaryUntouched(cps: nat, b0: seq<Block>, n0: Nand, b1: seq<Block>, n1: Nand, soft: seq<set<nat>>, objs: Objs,
                         c: Chunk)
    requires Linked(cps, b0, soft, n0, objs) && Shrunk(b0, n0, b1, n1, c) && c in n0 && n0[c].tags.objId == SUMMARY_ID
    ensures AllKept(objs, n0, objs, n1)
  {
    hide ObjKept;
    forall id | id in objs ensures ObjKept(n0, objs[id], n1, objs[id]) {
      assert ObjOk(b0, n0, id, objs[id]);
      OthersElsewhere(b0, n0, objs[id], id, SUMMARY_ID, c);
      UntouchedObj(cps, b0, n0, b1, n1, soft, objs, {c}, id);
    }
  }

  /** A soft-deleted object has no pointers to its data. */
  lemma SoftUntouched(cps: nat, b0: seq<Block>, n0: Nand, b1: seq<Block>, n1: Nand, soft: seq<set<nat>>, objs: Objs,
                      id: nat, o': Obj, c: Chunk)
    requires Linked(cps, b0, soft, n0, objs) && Shrunk(b0, n0, b1, n1, c) && c in n0 && n0[c].tags.objId == id
      && n0[c].tags.chunkId != 0
    requires id in objs && objs[id].SoftDeleted() && o' == objs[id].(nDataChunks := o'.nDataChunks)
    ensures AllKept(objs, n0, objs[id := o'], n1)
  {
    forall i | i in objs ensures ObjKept(n0, objs[i], n1, objs[id := o'][i]) {
      assert ObjOk(b0, n0, i, objs[i]);
      if i != id {
        OthersElsewhere(b0, n0, objs[i], i, id, c);
      }
      UntouchedObj(cps, b0, n0, b1, n1, soft, objs, {c}, i);
    }
  }
}
