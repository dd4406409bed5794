/**
 The search index as a map from message id to document, and the indexing jobs
 that bring it in line with the database over a faulty connection.
 */
module SearchIndex {
  import opened Options

  type Id = int

  const HIDE_COMMENTS_POSTSCORE: int := 10002
  const ANONYMOUS_USER_ID: int := 2

  /** A row of the topic query; `nofollow` stands for the author's link policy. */
  datatype Topic = Topic(
    section: string, group: string, author: string, authorId: int, title: string, message: string,
    markup: string, postdate: int, tags: seq<string>, deleted: bool, draft: bool, committed: bool,
    postscore: int, sectionPremoderated: bool, nofollow: bool)
  {
    predicate AwaitsCommit() { sectionPremoderated && !committed }

    /** Topics in any of these four conditions must not be found by search. */
    predicate Searchable() {
      && !deleted
      && !draft
      && postscore != HIDE_COMMENTS_POSTSCORE
      && !(AwaitsCommit() && authorId == ANONYMOUS_USER_ID)
    }
  }

  datatype Comment = Comment(
    topic: Id, title: string, author: string, message: string, markup: string, postdate: int,
    deleted: bool, nofollow: bool)

  datatype Db = Db(topics: map<Id, Topic>, comments: map<Id, Comment>)
  {
    /** Topics and comments draw their ids from one message table. */
    predicate Valid() { topics.Keys !! comments.Keys }
  }

  /** Rendering and text conversions the model does not look into. */
  datatype Texts = Texts(
    render: (string, string, bool) -> string,
    topicTitle: string -> string,
    unescape: string -> string,
    rfc3339: int -> string)

  datatype Doc = Doc(
    section: string, topicAuthor: string, topicId: Id, author: string, group: string,
    title: Option<string>, topicTitle: string, message: string, postdate: string, tags: seq<string>,
    isComment: bool, topicAwaitsCommit: bool)

  function TopicDoc(x: Texts, id: Id, t: Topic): Doc {
    var title := x.topicTitle(t.title);
    Doc(t.section, t.author, id, t.author, t.group, Some(title), title,
        x.render(t.message, t.markup, t.nofollow), x.rfc3339(t.postdate), t.tags, false, t.AwaitsCommit())
  }

  /** A comment title is indexed unless empty, equal to the topic's or a reply title. */
  function CommentTitle(x: Texts, t: Topic, c: Comment): Option<string> {
    if c.title == "" || c.title == x.topicTitle(t.title) || (|c.title| >= 3 && c.title[..3] == "Re:") then None
    else Some(x.unescape(c.title))
  }

  function CommentDoc(x: Texts, t: Topic, c: Comment): Doc {
    Doc(t.section, t.author, c.topic, c.author, t.group, CommentTitle(x, t, c), x.topicTitle(t.title),
        x.render(c.message, c.markup, c.nofollow), x.rfc3339(c.postdate), t.tags, true, t.AwaitsCommit())
  }

  // ---------------------------------------------------------------- the specification

  /** What the index should hold under `id`: the searchable projection of the database. */
  function Expected(x: Texts, db: Db, id: Id): Option<Doc> {
    if id in db.topics then
      if db.topics[id].Searchable() then Some(TopicDoc(x, id, db.topics[id])) else None
    else if id in db.comments && !db.comments[id].deleted
            && db.comments[id].topic in db.topics && db.topics[db.comments[id].topic].Searchable() then
      Some(CommentDoc(x, db.topics[db.comments[id].topic], db.comments[id]))
    else None
  }

  function Lookup(docs: map<Id, Doc>, id: Id): Option<Doc> {
    if id in docs then Some(docs[id]) else None
  }

  predicate Agrees(docs: map<Id, Doc>, x: Texts, db: Db, id: Id) {
    Lookup(docs, id) == Expected(x, db, id)
  }

  function CommentsOf(db: Db, topic: Id): set<Id> {
    set id | id in db.comments && db.comments[id].topic == topic
  }

  /** The documents a topic job is responsible for; a topic that is gone has none. */
  function Scope(db: Db, topic: Id, withComments: bool): set<Id> {
    if topic !in db.topics then {} else {topic} + if withComments then CommentsOf(db, topic) else {}
  }

  /** `docs` put right on `ids` and left alone elsewhere. */
  function Settle(docs: map<Id, Doc>, x: Texts, db: Db, ids: set<Id>): map<Id, Doc> {
    map id | id in docs.Keys + ids && (if id in ids then Expected(x, db, id).Some? else true)
      :: if id in ids then Expected(x, db, id).value else docs[id]
  }

  lemma SettleLookup(docs: map<Id, Doc>, x: Texts, db: Db, ids: set<Id>, id: Id)
    ensures Lookup(Settle(docs, x, db, ids), id) == if id in ids then Expected(x, db, id) else Lookup(docs, id)
  {
  }

  /** Settling is idempotent, order-independent and forgets partial earlier work. */
  lemma SettleTwice(docs: map<Id, Doc>, x: Texts, db: Db, a: set<Id>, b: set<Id>)
    ensures Settle(Settle(docs, x, db, a), x, db, b) == Settle(docs, x, db, a + b)
  {
    var d1 := Settle(Settle(docs, x, db, a), x, db, b);
    var d2 := Settle(docs, x, db, a + b);
    forall id
      ensures id in d1 <==> id in d2
      ensures id in d1 ==> d1[id] == d2[id]
    {
      SettleLookup(Settle(docs, x, db, a), x, db, b, id);
      SettleLookup(docs, x, db, a, id);
      SettleLookup(docs, x, db, a + b, id);
    }
  }

  lemma SettleNothing(docs: map<Id, Doc>, x: Texts, db: Db)
    ensures Settle(docs, x, db, {}) == docs
  {
  }

  // ---------------------------------------------------------------- the jobs

  /** An HTTP request can also fail after the server has applied it. */
  datatype Delivery = Delivered | Lost | AppliedThenLost

  class Index {
    var docs: map<Id, Doc>
    var requests: nat
    const network: nat -> Delivery

    constructor (docs: map<Id, Doc>, network: nat -> Delivery)
      ensures this.docs == docs && this.requests == 0
    {
      this.docs, this.requests, this.network := docs, 0, network;
    }

    method DeleteDoc(id: Id) returns (ok: bool)
      modifies this
      ensures ok ==> docs == old(docs) - {id}
      ensures !ok ==> docs == old(docs) || docs == old(docs) - {id}
    {
      var delivery := network(requests);
      requests := requests + 1;
      if !delivery.Lost? {
        docs := docs - {id};
      }
      return delivery.Delivered?;
    }

    method PutDoc(id: Id, doc: Doc) returns (ok: bool)
      modifies this
      ensures ok ==> docs == old(docs)[id := doc]
      ensures !ok ==> docs == old(docs) || docs == old(docs)[id := doc]
    {
      var delivery := network(requests);
      requests := requests + 1;
      if !delivery.Lost? {
        docs := docs[id := doc];
      }
      return delivery.Delivered?;
    }

    /**
     Indexes one comment. Success means exactly this comment is put right; a
     comment that is gone is left as it was; failure leaves it old or right.
     */
    method IndexComment(x: Texts, db: Db, id: Id) returns (ok: bool)
      modifies this
      requires db.Valid()
      ensures ok ==> docs == Settle(old(docs), x, db, if id in db.comments then {id} else {})
      ensures !ok ==> exists done :: done <= {id} && done <= db.comments.Keys && docs == Settle(old(docs), x, db, done)
    {
      SettleNothing(docs, x, db);
      if id !in db.comments {
        return true;
      }
      var comment := db.comments[id];
      ghost var before := docs;
      if comment.topic !in db.topics {
        ok := DeleteDoc(id);
      } else {
        var topic := db.topics[comment.topic];
        if comment.deleted || !topic.Searchable() {
          ok := DeleteDoc(id);
        } else {
          ok := PutDoc(id, CommentDoc(x, topic, comment));
        }
      }
      if docs != before {
        assert docs == Settle(before, x, db, {id});
      } else if ok {
        assert docs == Settle(before, x, db, {id});
      } else {
        assert docs == Settle(before, x, db, {});
      }
    }

    /** The ids of a topic's comments, each once, in whatever order the query returns them. */
    method SelectComments(db: Db, topic: Id) returns (ids: seq<Id>)
      ensures forall id :: id in ids <==> id in CommentsOf(db, topic)
    {
      ids := [];
      var rest := CommentsOf(db, topic);
      while rest != {}
        invariant rest <= CommentsOf(db, topic)
        invariant forall id :: id in ids <==> id in CommentsOf(db, topic) && id !in rest
        decreases |rest|
      {
        SomeId(rest);
        var id: Id :| id in rest;
        ids := ids + [id];
        rest := rest - {id};
      }
    }

    /**
     Indexes a topic and optionally its comments. Success puts exactly the scope
     right; failure at any request leaves part of the scope right and the rest,
     like everything outside the scope, untouched.
     */
    method IndexTopic(x: Texts, db: Db, id: Id, withComments: bool) returns (ok: bool)
      modifies this
      requires db.Valid()
      ensures ok ==> docs == Settle(old(docs), x, db, Scope(db, id, withComments))
      ensures !ok ==> exists done :: done <= Scope(db, id, withComments) && docs == Settle(old(docs), x, db, done)
    {
      ghost var before := docs;
      SettleNothing(docs, x, db);
      if id !in db.topics {
        return true;
      }
      var ids := [];
      if withComments {
        ids := SelectComments(db, id);
      }
      ok := IndexTopicDoc(x, db, id);
      if !ok {
        return;
      }
      ghost var settled := {id};
      for i := 0 to |ids|
        invariant docs == Settle(before, x, db, settled)
        invariant forall c :: c in settled <==> c == id || c in ids[..i]
      {
        ghost var at := docs;
        ok := IndexComment(x, db, ids[i]);
        assert ids[i] in ids;
        if !ok {
          ghost var done :| done <= {ids[i]} && docs == Settle(at, x, db, done);
          SettleTwice(before, x, db, settled, done);
          assert settled + done <= Scope(db, id, withComments);
          return;
        }
        SettleTwice(before, x, db, settled, {ids[i]});
        settled := settled + {ids[i]};
        assert ids[..i + 1] == ids[..i] + [ids[i]];
      }
      assert ids[..|ids|] == ids;
      assert settled == Scope(db, id, withComments);
      return true;
    }

    /** The topic's own document: put or deleted. */
    method IndexTopicDoc(x: Texts, db: Db, id: Id) returns (ok: bool)
      modifies this
      requires db.Valid() && id in db.topics
      ensures docs == Settle(old(docs), x, db, {id}) || (!ok && docs == old(docs))
    {
      var topic := db.topics[id];
      ghost var before := docs;
      if !topic.Searchable() {
        ok := DeleteDoc(id);
      } else {
        ok := PutDoc(id, TopicDoc(x, id, topic));
      }
      if docs != before {
        assert docs == Settle(before, x, db, {id});
      } else if ok {
        assert docs == Settle(before, x, db, {id});
      }
    }

    /** The comment-list job stops at the first failure. */
    method IndexComments(x: Texts, db: Db, ids: seq<Id>) returns (ok: bool)
      modifies this
      requires db.Valid()
      ensures ok ==> docs == Settle(old(docs), x, db, Listed(db, ids))
      ensures !ok ==> exists done :: done <= Listed(db, ids) && docs == Settle(old(docs), x, db, done)
    {
      ghost var before := docs;
      SettleNothing(docs, x, db);
      for i := 0 to |ids|
        invariant docs == Settle(before, x, db, Listed(db, ids[..i]))
      {
        ghost var at := docs;
        ok := IndexComment(x, db, ids[i]);
        ListedGrows(db, ids, i);
        if !ok {
          ghost var done :| done <= {ids[i]} && done <= db.comments.Keys && docs == Settle(at, x, db, done);
          PartListed(before, at, docs, x, db, ids, i, done);
          return;
        }
        SettleTwice(before, x, db, Listed(db, ids[..i]), if ids[i] in db.comments then {ids[i]} else {});
      }
      assert ids[..|ids|] == ids;
      return true;
    }

    /** The topics whose post date lies in the half-open interval, by id. */
    method SelectTopics(db: Db, start: int, end: int) returns (ids: seq<Id>)
      ensures forall id :: id in ids <==> id in TopicsBetween(db, start, end)
    {
      ids := [];
      var rest := TopicsBetween(db, start, end);
      while rest != {}
        invariant rest <= TopicsBetween(db, start, end)
        invariant forall id :: id in ids <==> id in TopicsBetween(db, start, end) && id !in rest
        decreases |rest|
      {
        LeastExists(rest);
        var id: Id :| id in rest && forall other: Id :: other in rest ==> id <= other;
        ids := ids + [id];
        rest := rest - {id};
      }
    }

    /** A month rebuild settles every topic of the interval, deleted and draft ones included. */
    method ReindexBetween(x: Texts, db: Db, start: int, end: int) returns (ok: bool)
      modifies this
      requires db.Valid()
      ensures ok ==> docs == Settle(old(docs), x, db, MonthScope(db, start, end))
      ensures !ok ==> exists done :: done <= MonthScope(db, start, end) && docs == Settle(old(docs), x, db, done)
    {
      ghost var before := docs;
      SettleNothing(docs, x, db);
      var ids := SelectTopics(db, start, end);
      ghost var settled: set<Id> := {};
      for i := 0 to |ids|
        invariant docs == Settle(before, x, db, settled)
        invariant settled <= MonthScope(db, start, end)
        invariant forall j :: 0 <= j < i ==> Scope(db, ids[j], true) <= settled
      {
        ghost var at := docs;
        assert ids[i] in ids;
        MonthScopeHas(db, start, end, ids[i]);
        ok := IndexTopic(x, db, ids[i], true);
        if !ok {
          ghost var done :| done <= Scope(db, ids[i], true) && docs == Settle(at, x, db, done);
          SettleTwice(before, x, db, settled, done);
          return;
        }
        SettleTwice(before, x, db, settled, Scope(db, ids[i], true));
        settled := settled + Scope(db, ids[i], true);
      }
      MonthScopeOnly(db, start, end, ids, settled);
      return true;
    }
  }

  /** The listed comments that exist. */
  function Listed(db: Db, ids: seq<Id>): set<Id> { set id | id in ids && id in db.comments }

  lemma ListedGrows(db: Db, ids: seq<Id>, i: nat)
    requires i < |ids|
    ensures Listed(db, ids[..i + 1]) == Listed(db, ids[..i]) + if ids[i] in db.comments then {ids[i]} else {}
    ensures Listed(db, ids[..i + 1]) <= Listed(db, ids)
  {
    assert ids[..i + 1] == ids[..i] + [ids[i]];
    assert forall c :: c in ids[..i + 1] ==> c in ids;
  }

  /** A failure at one comment leaves part of the list settled. */
  lemma PartListed(
      before: map<Id, Doc>, at: map<Id, Doc>, after: map<Id, Doc>, x: Texts, db: Db, ids: seq<Id>, i: nat, done: set<Id>)
    requires i < |ids| && at == Settle(before, x, db, Listed(db, ids[..i])) && after == Settle(at, x, db, done)
    requires done <= {ids[i]} && done <= db.comments.Keys
    ensures exists part :: part <= Listed(db, ids) && after == Settle(before, x, db, part)
  {
    SettleTwice(before, x, db, Listed(db, ids[..i]), done);
    ListedGrows(db, ids, i);
    assert Listed(db, ids[..i]) + done <= Listed(db, ids);
  }

  lemma SomeId(s: set<int>)
    requires s != {}
    ensures exists x :: x in s
  {
    if forall x :: x !in s {
      assert false;
    }
  }

  lemma {:induction false} LeastExists(s: set<int>)
    requires s != {}
    ensures exists x :: x in s && forall y :: y in s ==> x <= y
    decreases |s|
  {
    SomeId(s);
    var x: int :| x in s;
    if s - {x} == {} {
      assert s == {x};
    } else {
      LeastExists(s - {x});
      var m :| m in s - {x} && forall y :: y in s - {x} ==> m <= y;
      var least := if x < m then x else m;
      assert least in s;
      forall y | y in s ensures least <= y {
        assert y == x || y in s - {x};
      }
    }
  }

  function TopicsBetween(db: Db, start: int, end: int): set<Id> {
    set id | id in db.topics && start <= db.topics[id].postdate < end
  }

  /** Adjacent intervals share no topic, and together hold those of the whole. */
  lemma IntervalsJoin(db: Db, start: int, middle: int, end: int)
    requires start <= middle <= end
    ensures TopicsBetween(db, start, middle) !! TopicsBetween(db, middle, end)
    ensures TopicsBetween(db, start, middle) + TopicsBetween(db, middle, end) == TopicsBetween(db, start, end)
    ensures forall id :: id in db.topics ==> id in TopicsBetween(db, db.topics[id].postdate, db.topics[id].postdate + 1)
  {
  }

  /** Every topic of the interval together with its comments. */
  function MonthScope(db: Db, start: int, end: int): set<Id> {
    TopicsBetween(db, start, end) + set id | id in db.comments && db.comments[id].topic in TopicsBetween(db, start, end)
  }

  lemma MonthScopeHas(db: Db, start: int, end: int, topic: Id)
    requires topic in TopicsBetween(db, start, end)
    ensures Scope(db, topic, true) <= MonthScope(db, start, end)
  {
  }

  lemma MonthScopeOnly(db: Db, start: int, end: int, ids: seq<Id>, settled: set<Id>)
    requires forall id :: id in ids <==> id in TopicsBetween(db, start, end)
    requires settled <= MonthScope(db, start, end)
    requires forall j :: 0 <= j < |ids| ==> Scope(db, ids[j], true) <= settled
    ensures settled == MonthScope(db, start, end)
  {
    forall id | id in MonthScope(db, start, end) ensures id in settled {
      var topic := if id in TopicsBetween(db, start, end) then id else db.comments[id].topic;
      assert topic in ids;
      var j :| 0 <= j < |ids| && ids[j] == topic;
      assert id in Scope(db, ids[j], true);
    }
  }

  // ---------------------------------------------------------------- convergence

  /**
   After a successful topic-with-comments job on an existing topic the index is
   the searchable projection on that topic and all its comments, unchanged
   elsewhere, and holds no comment of an unsearchable topic.
   */
  lemma TopicJobConverges(docs: map<Id, Doc>, x: Texts, db: Db, topic: Id)
    requires db.Valid() && topic in db.topics
    ensures
      var after := Settle(docs, x, db, Scope(db, topic, true));
      && Agrees(after, x, db, topic)
      && (forall id :: id in CommentsOf(db, topic) ==> Agrees(after, x, db, id))
      && (forall id :: id !in Scope(db, topic, true) ==> Lookup(after, id) == Lookup(docs, id))
      && (!db.topics[topic].Searchable() ==> topic !in after && forall id :: id in CommentsOf(db, topic) ==> id !in after)
  {
    var after := Settle(docs, x, db, Scope(db, topic, true));
    forall id
      ensures Lookup(after, id) == if id in Scope(db, topic, true) then Expected(x, db, id) else Lookup(docs, id)
    {
      SettleLookup(docs, x, db, Scope(db, topic, true), id);
    }
  }

  /**
   What a job leaves for an existing topic it is responsible for: nothing for a
   deleted, draft or hidden one, nor for one of the anonymous user awaiting its
   commit in a premoderated section; else its fields.
   */
  lemma TopicJobLeaves(docs: map<Id, Doc>, x: Texts, db: Db, ids: set<Id>, topic: Id)
    requires db.Valid() && topic in ids && topic in db.topics
    ensures
      var after := Settle(docs, x, db, ids);
      var t := db.topics[topic];
      if t.deleted || t.draft || t.postscore == 10002 || (t.sectionPremoderated && !t.committed && t.authorId == 2) then
        topic !in after
      else
        && topic in after
        && after[topic].section == t.section && after[topic].group == t.group && after[topic].topicId == topic
        && after[topic].author == t.author && after[topic].topicAuthor == t.author
        && after[topic].title == Some(x.topicTitle(t.title)) && after[topic].topicTitle == x.topicTitle(t.title)
        && after[topic].message == x.render(t.message, t.markup, t.nofollow)
        && after[topic].postdate == x.rfc3339(t.postdate) && after[topic].tags == t.tags && !after[topic].isComment
        && after[topic].topicAwaitsCommit == (t.sectionPremoderated && !t.committed)
  {
    SettleLookup(docs, x, db, ids, topic);
  }

  /**
   What it leaves for a comment it is responsible for: nothing for a deleted one
   or one of a topic that is itself left out; else the comment's fields next to the
   topic's.
   */
  lemma CommentJobLeaves(docs: map<Id, Doc>, x: Texts, db: Db, ids: set<Id>, id: Id)
    requires db.Valid() && id in ids && id in db.comments && db.comments[id].topic in db.topics
    ensures
      var after := Settle(docs, x, db, ids);
      var c := db.comments[id];
      var t := db.topics[c.topic];
      if c.deleted || t.deleted || t.draft || t.postscore == 10002
         || (t.sectionPremoderated && !t.committed && t.authorId == 2) then
        id !in after
      else
        && id in after
        && after[id].section == t.section && after[id].group == t.group && after[id].topicId == c.topic
        && after[id].author == c.author && after[id].topicAuthor == t.author
        && after[id].topicTitle == x.topicTitle(t.title)
        && (after[id].title.None? <==> c.title == "" || c.title == x.topicTitle(t.title) || "Re:" <= c.title)
        && (after[id].title.Some? ==> after[id].title.value == x.unescape(c.title))
        && after[id].message == x.render(c.message, c.markup, c.nofollow)
        && after[id].postdate == x.rfc3339(c.postdate) && after[id].tags == t.tags && after[id].isComment
        && after[id].topicAwaitsCommit == (t.sectionPremoderated && !t.committed)
  {
    SettleLookup(docs, x, db, ids, id);
  }

  /** A comment whose topic is gone leaves no document. */
  lemma OrphanJobLeaves(docs: map<Id, Doc>, x: Texts, db: Db, ids: set<Id>, id: Id)
    requires db.Valid() && id in ids && id in db.comments && db.comments[id].topic !in db.topics
    ensures id !in Settle(docs, x, db, ids)
  {
    SettleLookup(docs, x, db, ids, id);
  }

  /** Any number of attempts that failed part-way, then one success: the same index as success at once. */
  lemma {:induction false} RetriesReachTheSameIndex(
      docs: map<Id, Doc>, x: Texts, db: Db, scope: set<Id>, partial: seq<set<Id>>)
    requires forall k :: 0 <= k < |partial| ==> partial[k] <= scope
    ensures Settle(AfterAttempts(docs, x, db, partial), x, db, scope) == Settle(docs, x, db, scope)
    decreases |partial|
  {
    if partial != [] {
      var last := partial[|partial| - 1];
      var prior := AfterAttempts(docs, x, db, partial[..|partial| - 1]);
      RetriesReachTheSameIndex(docs, x, db, scope, partial[..|partial| - 1]);
      SettleTwice(prior, x, db, last, scope);
      assert last + scope == scope;
    }
  }

  /** The index after attempts that each settled one set of documents. */
  function AfterAttempts(docs: map<Id, Doc>, x: Texts, db: Db, partial: seq<set<Id>>): map<Id, Doc> {
    if partial == [] then docs
    else Settle(AfterAttempts(docs, x, db, partial[..|partial| - 1]), x, db, partial[|partial| - 1])
  }

  // ---------------------------------------------------------------- where a job does not converge

  /** A topic-only job leaves comments of an unsearchable topic in the index exactly if there were any. */
  lemma TopicOnlyJobLeavesComments(docs: map<Id, Doc>, x: Texts, db: Db, topic: Id)
    requires db.Valid() && topic in db.topics && !db.topics[topic].Searchable()
    ensures
      var after := Settle(docs, x, db, Scope(db, topic, false));
      (forall id :: id in CommentsOf(db, topic) ==> Agrees(after, x, db, id))
      <==> (forall id :: id in CommentsOf(db, topic) ==> id !in docs)
  {
    var after := Settle(docs, x, db, Scope(db, topic, false));
    forall id | id in CommentsOf(db, topic)
      ensures Agrees(after, x, db, id) <==> id !in docs
    {
      SettleLookup(docs, x, db, Scope(db, topic, false), id);
    }
    if forall id :: id in CommentsOf(db, topic) ==> Agrees(after, x, db, id) {
      forall id | id in CommentsOf(db, topic) ensures id !in docs {
        assert Agrees(after, x, db, id);
      }
    }
  }

  /** The job of a topic that no longer exists succeeds without a request; it is right exactly if no document was left. */
  lemma MissingTopicJobIsANoOp(docs: map<Id, Doc>, x: Texts, db: Db, topic: Id, withComments: bool)
    requires topic !in db.topics && topic !in db.comments
    ensures Settle(docs, x, db, Scope(db, topic, withComments)) == docs
    ensures Agrees(Settle(docs, x, db, Scope(db, topic, withComments)), x, db, topic) <==> topic !in docs
  {
    SettleNothing(docs, x, db);
  }
}
