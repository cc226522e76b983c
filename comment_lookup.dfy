/**
 * The two lookups into a design file's comment list. Each one GETs the whole
 * list and returns a field of the first comment whose id equals the target,
 * or nothing. The GET itself is not modelled: its result is a `Fetch` value,
 * either a thrown error or a status with the parsed comment list.
 */
module CommentLookup {
  import opened Relay

  /**
   * One comment record of the listing. `nodeId` is `client_meta.node_id`;
   * None when the record has no `client_meta` or no `node_id` in it.
   */
  datatype Comment = Comment(id: string, message: string, nodeId: Option<string>)

  /** The result of the GET: it threw, or it answered with a status and a comment list. */
  datatype Fetch = FetchFailed | Fetched(status: int, comments: seq<Comment>)

  /** The listing was fetched and its status is not one the lookups reject (403, 404). */
  predicate Usable(f: Fetch)
  {
    f.Fetched? && f.status != 403 && f.status != 404
  }

  /** `i` is the position of the first comment whose id is `id`. */
  predicate IsFirstWithId(comments: seq<Comment>, id: string, i: int)
  {
    0 <= i < |comments| && comments[i].id == id &&
    forall j :: 0 <= j < i ==> comments[j].id != id
  }

  /** `comments.find(c => c.id === id)`, as the position it stops at. */
  function FindById(comments: seq<Comment>, id: string): (r: Option<nat>)
    ensures r.Some? ==> IsFirstWithId(comments, id, r.value)
    ensures r.None? <==> forall j :: 0 <= j < |comments| ==> comments[j].id != id
  {
    if comments == [] then None
    else if comments[0].id == id then Some(0)
    else match FindById(comments[1..], id)
      case None => None
      case Some(k) => Some(k + 1)
  }

  /**
   * The node id of the first comment whose id is `commentId`; None when the
   * GET failed, was answered 403 or 404, no comment has that id, or that
   * comment carries no node id.
   */
  function GetNodeIdFromComment(f: Fetch, commentId: string): (r: Option<string>)
    ensures r.Some? <==>
      (Usable(f) && exists i :: IsFirstWithId(f.comments, commentId, i) && f.comments[i].nodeId.Some?)
    ensures forall i :: Usable(f) && IsFirstWithId(f.comments, commentId, i) ==>
      r == f.comments[i].nodeId
  {
    if !Usable(f) then None
    else match FindById(f.comments, commentId)
      case None => None
      case Some(i) =>
        FirstWithIdUnique(f.comments, commentId, i);
        f.comments[i].nodeId
  }

  /**
   * The message of the first comment whose id is `parentId`; None when the
   * GET failed, was answered 403 or 404, or no comment has that id.
   */
  function GetParentComment(f: Fetch, parentId: string): (r: Option<string>)
    ensures r.Some? <==> Usable(f) && exists i :: IsFirstWithId(f.comments, parentId, i)
    ensures forall i :: Usable(f) && IsFirstWithId(f.comments, parentId, i) ==>
      r == Some(f.comments[i].message)
  {
    if !Usable(f) then None
    else match FindById(f.comments, parentId)
      case None => None
      case Some(i) =>
        FirstWithIdUnique(f.comments, parentId, i);
        Some(f.comments[i].message)
  }

  lemma FirstWithIdUnique(comments: seq<Comment>, id: string, i: int)
    requires IsFirstWithId(comments, id, i)
    ensures forall j :: IsFirstWithId(comments, id, j) ==> j == i
  {
  }

  /**
   * Comments appended after the first match do not change what `find`
   * returns, and neither do comments with other ids placed before it.
   */
  lemma {:induction false} FindIgnoresOthers(pre: seq<Comment>, c: Comment, post: seq<Comment>)
    requires forall j :: 0 <= j < |pre| ==> pre[j].id != c.id
    ensures FindById(pre + [c] + post, c.id) == Some(|pre|)
  {
    if pre != [] {
      assert (pre + [c] + post)[1..] == pre[1..] + [c] + post;
      FindIgnoresOthers(pre[1..], c, post);
    }
  }

  /**
   * Both lookups, given the same listing and id, read the same record: the
   * node id is found only where the parent message is found, and both come
   * from the first comment with that id.
   */
  lemma LookupsReadSameRecord(f: Fetch, id: string)
    ensures GetNodeIdFromComment(f, id).Some? ==> GetParentComment(f, id).Some?
    ensures GetParentComment(f, id).Some? ==>
      exists i :: IsFirstWithId(f.comments, id, i) &&
        GetParentComment(f, id) == Some(f.comments[i].message) &&
        GetNodeIdFromComment(f, id) == f.comments[i].nodeId
  {
  }
}
