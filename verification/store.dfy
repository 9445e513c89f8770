/** The message collection as an abstract store: documents keyed by their id.
    Only the driver calls the core uses are modelled: a lookup by id, a full scan,
    an append to a document's vote list, and a delete by id. */
module Store {
  import opened Messages

  class Collection {
    var docs: map<MsgId, Message>

    /** Every document is stored under its own id. */
    ghost predicate Valid()
      reads this
    {
      forall id :: id in docs ==> docs[id].id == id
    }

    constructor (initial: map<MsgId, Message>)
      requires forall id :: id in initial ==> initial[id].id == id
      ensures Valid() && docs == initial
    {
      docs := initial;
    }

    /** `find({_id: id}).limit(1)`: the document with that id, if any. */
    function Find(id: MsgId): (r: Option<Message>)
      reads this
      ensures r.Some? <==> id in docs
      ensures r.Some? ==> r.value == docs[id]
    {
      if id in docs then Some(docs[id]) else None
    }

    /** `find().toArray()`: every document once, in some order. */
    method FindAll() returns (s: seq<Message>)
      requires Valid()
      ensures forall k :: 0 <= k < |s| ==> s[k].id in docs && docs[s[k].id] == s[k]
      ensures forall id :: id in docs ==> exists k :: 0 <= k < |s| && s[k].id == id
      ensures |s| == |docs|
    {
      s := [];
      var rest := docs.Keys;
      while rest != {}
        invariant rest <= docs.Keys
        invariant |s| + |rest| == |docs.Keys|
        invariant forall k :: 0 <= k < |s| ==> s[k].id in docs && docs[s[k].id] == s[k] && s[k].id !in rest
        invariant forall id :: id in docs && id !in rest ==> exists k :: 0 <= k < |s| && s[k].id == id
        decreases rest
      {
        var id :| id in rest;
        ghost var before := s;
        s := s + [docs[id]];
        rest := rest - {id};
        assert s[|s| - 1].id == id;
        assert forall k :: 0 <= k < |before| ==> s[k] == before[k];
      }
    }

    /** `update({_id: id}, {$push: {votes: v}})`: append one vote to that document. */
    method Push(id: MsgId, v: Vote)
      requires Valid() && id in docs
      modifies this
      ensures Valid()
      ensures docs == old(docs[id := docs[id].(votes := docs[id].votes + [v])])
    {
      docs := docs[id := docs[id].(votes := docs[id].votes + [v])];
    }

    /** `remove({_id: id})`: delete that document; a missing id matches nothing. */
    method Remove(id: MsgId)
      requires Valid()
      modifies this
      ensures Valid()
      ensures docs == old(docs) - {id}
    {
      docs := docs - {id};
    }
  }
}
