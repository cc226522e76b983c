/**
 * The comment webhook handler: checks the file name, builds the chat message
 * step by step (header, quoted parent, body lines, link), resolves the node
 * the link points at, and posts the message.
 *
 * The two comment-list GETs and the webhook POST are inputs: `parentFetch`
 * and `nodeFetch` are what the GETs returned, `postSucceeds` whether the
 * POST resolved. The outcome records the response sent and the outbound
 * calls made, in order.
 */
module CommentHandler {
  import opened Relay
  import opened Substitution
  import opened CommentLookup

  /**
   * One element of a comment body. JavaScript treats a missing field and an
   * empty string alike (both are falsy), so "" stands for both here.
   */
  datatype Fragment = Fragment(text: string, mention: string)

  /** A comment body is either a list of fragments or a single one. */
  datatype CommentBody = Fragments(items: seq<Fragment>) | Single(node: Fragment)

  /** The fields of the comment event the handler reads. */
  datatype CommentEvent = CommentEvent(
    comment: CommentBody,
    fileName: string,
    fileKey: string,
    commentId: string,
    handle: string,
    createdAt: string,
    parentId: string)

  /** A comment with an empty parent id opens a thread; any other is a reply. */
  predicate IsNewThread(ev: CommentEvent)
  {
    ev.parentId == ""
  }

  /** The comment whose node the link shows and whose id is its fragment: the thread's root. */
  function AnchorId(ev: CommentEvent): string
  {
    if IsNewThread(ev) then ev.commentId else ev.parentId
  }

  /**
   * The title lines. The new-vs-reply wording is chosen by `parent_id == ""`:
   * "코멘트가"/"Commented" for a new thread, "댓글이"/"Replied" for a reply.
   */
  function Header(ev: CommentEvent): (r: string)
    // the title names the file, and the author line closes with a blank line
    ensures "# " + ev.fileName + "에 새 " <= r
    ensures |ev.handle + "`\n\n"| <= |r| && r[|r| - |ev.handle + "`\n\n"|..] == ev.handle + "`\n\n"
  {
    "# " + ev.fileName + "에 새 " + (if IsNewThread(ev) then "코멘트가" else "댓글이") +
    (" 있어요!\n`" + ev.createdAt + "`\n") +
    ("`" + (if IsNewThread(ev) then "Commented" else "Replied") + " by " + ev.handle + "`\n\n")
  }

  /** Appends the quoted parent message that opens a reply's body. */
  function WithQuote(rules: seq<Rule>, message: string, parentText: string): string
    requires ValidRules(rules)
  {
    message + ("> `" + ReplaceText(rules, parentText) + "`\n> \n> ")
  }

  /** The line one fragment of a list body contributes: its text, else its mention, else nothing. */
  function FragmentLine(rules: seq<Rule>, item: Fragment): string
    requires ValidRules(rules)
  {
    if item.text != "" then ReplaceText(rules, item.text) + "\n"
    else if item.mention != "" then "Mentioned user: " + item.mention + "\n"
    else ""
  }

  function FragmentsText(rules: seq<Rule>, items: seq<Fragment>): string
    requires ValidRules(rules)
  {
    if items == [] then ""
    else FragmentsText(rules, items[..|items| - 1]) + FragmentLine(rules, items[|items| - 1])
  }

  /** The body lines; a single fragment contributes only its text, never a mention. */
  function BodyText(rules: seq<Rule>, body: CommentBody): string
    requires ValidRules(rules)
  {
    match body
    case Fragments(items) => FragmentsText(rules, items)
    case Single(node) => if node.text != "" then ReplaceText(rules, node.text) + "\n" else ""
  }

  /** `https://www.figma.com/design/{file_key}?node-id={node_id}#{anchor}` */
  function DeepLink(fileKey: string, nodeId: string, anchor: string): string
  {
    "https://www.figma.com/design/" + fileKey + "?node-id=" + nodeId + "#" + anchor
  }

  /** The closing section: a title line and the deep link on a line of its own. */
  function LinkSection(fileKey: string, nodeId: string, anchor: string): string
  {
    "\n### Go to Comment\n" + (DeepLink(fileKey, nodeId, anchor) + "\n")
  }

  /** Appends the closing section with the deep link. */
  function WithLink(message: string, fileKey: string, nodeId: string, anchor: string): string
  {
    message + LinkSection(fileKey, nodeId, anchor)
  }

  /**
   * The posted message, in the order it is assembled: the header, the
   * quoted parent for a reply, the body lines, and the link to the node of
   * the thread's root comment.
   */
  function CommentMessage(rules: seq<Rule>, ev: CommentEvent, parentText: string, nodeId: string): (r: string)
    requires ValidRules(rules)
    // the message opens with the header
    ensures Header(ev) <= r
  {
    var opening := if IsNewThread(ev) then Header(ev) else WithQuote(rules, Header(ev), parentText);
    WithLink(opening + BodyText(rules, ev.comment), ev.fileKey, nodeId, AnchorId(ev))
  }

  const NodeIdNotFound: Response := Response(404, Json(Some(false), "Node ID not found"))

  /** The GETs a request that gets past the parent lookup makes: one per lookup. */
  function Lookups(ev: CommentEvent): seq<Effect>
  {
    if IsNewThread(ev) then [GetComments(ev.fileKey)]
    else [GetComments(ev.fileKey), GetComments(ev.fileKey)]
  }

  /** The parent's message is needed (a reply) and could not be found. */
  predicate ParentMissing(ev: CommentEvent, parentFetch: Fetch)
  {
    !IsNewThread(ev) && GetParentComment(parentFetch, ev.parentId).None?
  }

  /** The node id the link needs is missing or empty (`!node_id`). */
  predicate NodeMissing(ev: CommentEvent, nodeFetch: Fetch)
  {
    var n := GetNodeIdFromComment(nodeFetch, AnchorId(ev));
    n.None? || n.value == ""
  }

  lemma FragmentsTextSnoc(rules: seq<Rule>, items: seq<Fragment>, item: Fragment)
    requires ValidRules(rules)
    ensures FragmentsText(rules, items + [item]) == FragmentsText(rules, items) + FragmentLine(rules, item)
  {
  }

  /** Appending the line of fragment `i` extends the body text by that fragment. */
  lemma AppendLineStep(rules: seq<Rule>, message: string, items: seq<Fragment>, i: nat, before: string, m: string)
    requires ValidRules(rules)
    requires i < |items|
    requires before == message + FragmentsText(rules, items[..i])
    requires m == before + FragmentLine(rules, items[i])
    ensures m == message + FragmentsText(rules, items[..i + 1])
  {
    var body, line := FragmentsText(rules, items[..i]), FragmentLine(rules, items[i]);
    calc {
      m;
      (message + body) + line;
      { AppendAssoc(message, body, line); }
      message + (body + line);
      { FragmentsTextSnoc(rules, items[..i], items[i]); }
      message + FragmentsText(rules, items[..i] + [items[i]]);
      { TakeSnoc(items, i); }
      message + FragmentsText(rules, items[..i + 1]);
    }
  }

  /** The `forEach` callback: appends one fragment's text, else its mention, else nothing. */
  method AppendFragment(rules: seq<Rule>, message: string, item: Fragment) returns (m: string)
    requires ValidRules(rules)
    ensures m == message + FragmentLine(rules, item)
  {
    m := message;
    // each template literal is built first and then appended
    if item.text != "" {
      m := m + (ReplaceText(rules, item.text) + "\n");
    } else if item.mention != "" {
      m := m + ("Mentioned user: " + item.mention + "\n");
    } else {
      assert message + FragmentLine(rules, item) == message + "";
    }
  }

  /** Appends the line of each fragment of a list body to `message`, in order. */
  method AppendFragments(rules: seq<Rule>, message: string, items: seq<Fragment>) returns (m: string)
    requires ValidRules(rules)
    ensures m == message + FragmentsText(rules, items)
  {
    m := message;
    var i := 0;
    while i < |items|
      invariant 0 <= i <= |items|
      invariant m == message + FragmentsText(rules, items[..i])
    {
      ghost var before := m;
      m := AppendFragment(rules, m, items[i]);
      AppendLineStep(rules, message, items, i, before, m);
      i := i + 1;
    }
    TakeAll(items);
  }

  /** Appends the body lines to `message`: every fragment of a list, or the text of a single one. */
  method AppendBody(rules: seq<Rule>, message: string, body: CommentBody) returns (m: string)
    requires ValidRules(rules)
    ensures m == message + BodyText(rules, body)
  {
    match body {
      case Fragments(items) =>
        m := AppendFragments(rules, message, items);
      case Single(node) =>
        m := message;
        if node.text != "" {
          m := m + (ReplaceText(rules, node.text) + "\n");
        }
    }
  }

  /** Appends the closing section, written as one template literal, to `message`. */
  method AppendLink(message: string, fileKey: string, nodeId: string, anchor: string) returns (m: string)
    ensures m == WithLink(message, fileKey, nodeId, anchor)
  {
    m := message + ("\n### Go to Comment\n" + "https://www.figma.com/design/" + fileKey +
      "?node-id=" + nodeId + "#" + anchor + "\n");
    LinkTemplate(fileKey, nodeId, anchor);
  }

  method HandleFileComment(rules: seq<Rule>, ev: CommentEvent, parentFetch: Fetch, nodeFetch: Fetch,
                           postSucceeds: bool) returns (o: Outcome)
    requires ValidRules(rules)
    // a foreign file is refused before any outbound call
    ensures ev.fileName != ProjectFileName ==> o == Outcome(Some(UnknownFileName), [])
    // a reply whose parent cannot be read throws (replaceText(null)): no response, no post
    ensures ev.fileName == ProjectFileName && ParentMissing(ev, parentFetch) ==>
      o == Outcome(None, [GetComments(ev.fileKey)])
    // no node id: 404 and nothing is posted
    ensures (ev.fileName == ProjectFileName && !ParentMissing(ev, parentFetch) &&
             NodeMissing(ev, nodeFetch)) ==> o == Outcome(Some(NodeIdNotFound), Lookups(ev))
    // otherwise the message is posted once, and the status reports the post
    ensures (ev.fileName == ProjectFileName && !ParentMissing(ev, parentFetch) &&
             !NodeMissing(ev, nodeFetch)) ==>
        var parentText := if IsNewThread(ev) then "" else GetParentComment(parentFetch, ev.parentId).value;
        var nodeId := GetNodeIdFromComment(nodeFetch, AnchorId(ev)).value;
        o == Outcome(Some(if postSucceeds then NotificationSent else SendFailed),
                     Lookups(ev) + [PostWebhook(CommentMessage(rules, ev, parentText, nodeId))])
    // a response is sent, and a message posted, unless the parent lookup threw
    ensures o.response.None? <==> ev.fileName == ProjectFileName && ParentMissing(ev, parentFetch)
    ensures Posts(o.effects) <==>
      ev.fileName == ProjectFileName && !ParentMissing(ev, parentFetch) && !NodeMissing(ev, nodeFetch)
  {
    if ev.fileName != ProjectFileName {
      return Outcome(Some(UnknownFileName), []);
    }
    var effects: seq<Effect> := [];
    var message := "# " + ev.fileName + "에 새 ";
    message := message + (if ev.parentId == "" then "코멘트가" else "댓글이");
    message := message + (" 있어요!\n`" + ev.createdAt + "`\n");
    message := message + ("`" + (if ev.parentId == "" then "Commented" else "Replied") + " by " + ev.handle + "`\n\n");
    assert message == Header(ev);

    var parentText := "";
    if ev.parentId != "" {
      effects := effects + [GetComments(ev.fileKey)];
      var parent := GetParentComment(parentFetch, ev.parentId);
      if parent.None? {
        return Outcome(None, effects);
      }
      parentText := parent.value;
      message := message + ("> `" + ReplaceText(rules, parentText) + "`\n> \n> ");
      assert message == WithQuote(rules, Header(ev), parentText);
    }
    ghost var opening := message;

    message := AppendBody(rules, message, ev.comment);

    var anchor := if ev.parentId == "" then ev.commentId else ev.parentId;
    effects := effects + [GetComments(ev.fileKey)];
    assert anchor == AnchorId(ev) && effects == Lookups(ev);
    var nodeId := GetNodeIdFromComment(nodeFetch, anchor);
    if nodeId.None? || nodeId.value == "" {
      return Outcome(Some(NodeIdNotFound), effects);
    }
    message := AppendLink(message, ev.fileKey, nodeId.value, anchor);
    assert message == CommentMessage(rules, ev, parentText, nodeId.value);

    effects := effects + [PostWebhook(message)];
    assert effects[|effects| - 1].PostWebhook?;
    if postSucceeds {
      o := Outcome(Some(NotificationSent), effects);
    } else {
      o := Outcome(Some(SendFailed), effects);
    }
  }

  // ---------------------------------------------------------------------
  // Properties of the composed message

  /** The body of a fragment list is the concatenation of its fragments' lines. */
  lemma {:induction false} FragmentsTextAppend(rules: seq<Rule>, a: seq<Fragment>, b: seq<Fragment>)
    requires ValidRules(rules)
    ensures FragmentsText(rules, a + b) == FragmentsText(rules, a) + FragmentsText(rules, b)
    decreases |b|
  {
    if b == [] {
      assert a + b == a;
    } else {
      var init, last := b[..|b| - 1], b[|b| - 1];
      TakeSnoc(b, |b| - 1);
      TakeAll(b);
      SnocAssoc(a, init, last);
      FragmentsTextSnoc(rules, a + init, last);
      FragmentsTextSnoc(rules, init, last);
      FragmentsTextAppend(rules, a, init);
      AppendAssoc(FragmentsText(rules, a), FragmentsText(rules, init), FragmentLine(rules, last));
    }
  }

  /** Fragments with neither text nor mention add nothing to the message. */
  lemma {:induction false} SilentFragmentsAddNothing(rules: seq<Rule>, items: seq<Fragment>)
    requires ValidRules(rules)
    requires forall i :: 0 <= i < |items| ==> items[i].text == "" && items[i].mention == ""
    ensures FragmentsText(rules, items) == ""
    decreases |items|
  {
    if items != [] {
      SilentFragmentsAddNothing(rules, items[..|items| - 1]);
    }
  }

  /**
   * A mention counts only inside a fragment list: a lone mention fragment
   * adds a "Mentioned user" line there, and nothing as a single body.
   */
  lemma MentionOnlyInLists(rules: seq<Rule>, user: string)
    requires ValidRules(rules)
    requires user != ""
    ensures BodyText(rules, Fragments([Fragment("", user)])) == "Mentioned user: " + user + "\n"
    ensures BodyText(rules, Single(Fragment("", user))) == ""
  {
    var f := Fragment("", user);
    assert [] + [f] == [f];
    FragmentsTextSnoc(rules, [], f);
  }

  /**
   * A fragment's text wins over its mention: with text present, only the
   * substituted text is written, in a list and as a single body alike.
   */
  lemma TextHidesMention(rules: seq<Rule>, text: string, user: string)
    requires ValidRules(rules)
    requires text != ""
    ensures BodyText(rules, Fragments([Fragment(text, user)])) == ReplaceText(rules, text) + "\n"
    ensures BodyText(rules, Single(Fragment(text, user))) == ReplaceText(rules, text) + "\n"
  {
    var f := Fragment(text, user);
    assert [] + [f] == [f];
    FragmentsTextSnoc(rules, [], f);
  }

  /**
   * The header tells a new thread from a reply: two events that differ only
   * in that respect get different headers.
   */
  lemma HeaderRevealsThreadKind(e1: CommentEvent, e2: CommentEvent)
    requires e1.fileName == e2.fileName && e1.createdAt == e2.createdAt && e1.handle == e2.handle
    ensures Header(e1) == Header(e2) <==> (IsNewThread(e1) <==> IsNewThread(e2))
  {
  }

  /**
   * A reply links to its thread: the node is looked up by the parent's id,
   * so with the parent at node N1 and the reply itself at N2 the link
   * resolves to N1.
   */
  lemma ReplyResolvesParentNode(ev: CommentEvent, replyText: string, parentText: string, n1: string, n2: string)
    requires !IsNewThread(ev) && ev.commentId != ev.parentId
    ensures var listing := Fetched(200, [Comment(ev.commentId, replyText, Some(n2)),
                                         Comment(ev.parentId, parentText, Some(n1))]);
      AnchorId(ev) == ev.parentId && GetNodeIdFromComment(listing, AnchorId(ev)) == Some(n1)
  {
    var listing := Fetched(200, [Comment(ev.commentId, replyText, Some(n2)),
                                 Comment(ev.parentId, parentText, Some(n1))]);
    assert IsFirstWithId(listing.comments, ev.parentId, 1);
  }

  /**
   * The message ends with the deep link to the looked-up node, whose
   * fragment is the thread's root comment: the comment itself for a new
   * thread, its parent for a reply.
   */
  lemma {:induction false} MessageEndsWithDeepLink(rules: seq<Rule>, ev: CommentEvent, parentText: string, nodeId: string)
    requires ValidRules(rules)
    ensures var msg := CommentMessage(rules, ev, parentText, nodeId);
      var link := DeepLink(ev.fileKey, nodeId, if ev.parentId == "" then ev.commentId else ev.parentId) + "\n";
      |link| <= |msg| && msg[|msg| - |link|..] == link
  {
    var opening := if IsNewThread(ev) then Header(ev) else WithQuote(rules, Header(ev), parentText);
    var m := opening + BodyText(rules, ev.comment);
    var anchor := AnchorId(ev);
    var link := DeepLink(ev.fileKey, nodeId, anchor) + "\n";
    var msg := CommentMessage(rules, ev, parentText, nodeId);
    var head := m + "\n### Go to Comment\n";
    assert msg == head + link by {
      AppendAssoc(m, "\n### Go to Comment\n", link);
    }
    SuffixOfAppend(head, link);
  }

  /** The link section as the handler writes it, one template literal, is the title and the deep link line. */
  lemma LinkTemplate(fileKey: string, nodeId: string, anchor: string)
    ensures "\n### Go to Comment\n" + "https://www.figma.com/design/" + fileKey + "?node-id=" + nodeId + "#" +
      anchor + "\n" == LinkSection(fileKey, nodeId, anchor)
  {
  }

  lemma SuffixOfAppend<T>(p: seq<T>, q: seq<T>)
    ensures |q| <= |p + q| && (p + q)[|p + q| - |q|..] == q
  {
  }

  /**
   * The message opens with the header; a reply's header is followed at once
   * by the parent's message, quoted, with the rules applied to it.
   */
  lemma MessageOpening(rules: seq<Rule>, ev: CommentEvent, parentText: string, nodeId: string)
    requires ValidRules(rules)
    ensures Header(ev) <= CommentMessage(rules, ev, parentText, nodeId)
    ensures !IsNewThread(ev) ==>
      Header(ev) + ("> `" + ReplaceText(rules, parentText) + "`\n> \n> ") <= CommentMessage(rules, ev, parentText, nodeId)
  {
  }

  // ---------------------------------------------------------------------
  // Sequence facts, stated once for any element type

  lemma TakeSnoc<T>(s: seq<T>, i: nat)
    requires i < |s|
    ensures s[..i] + [s[i]] == s[..i + 1]
  {
  }

  lemma TakeAll<T>(s: seq<T>)
    ensures s[..|s|] == s
  {
  }

  lemma SnocAssoc<T>(a: seq<T>, b: seq<T>, x: T)
    ensures a + (b + [x]) == (a + b) + [x]
  {
  }
}
