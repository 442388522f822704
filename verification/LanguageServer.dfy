/** The document mirror in the form the program runs it: one object whose fields the operations update. */
module LanguageServer {
  import opened Outcomes
  import opened OrderedKeys
  import opened DocumentMirror

  class Server {
    var order: seq<Uri>
    var documents: map<Uri, Document>
    var failed: bool
    var writeUncertain: bool
    var gone: bool
    ghost var delivered: seq<Note>
    ghost var doubtful: Option<Note>

    ghost function State(): Session
      reads this
    {
      Session(order, documents, Link(failed, writeUncertain, gone, delivered, doubtful))
    }

    constructor ()
      ensures State() == FRESH
    {
      order, documents, failed, writeUncertain, gone := [], map[], false, false, false;
      delivered, doubtful := [], None;
    }

    /** Writes one frame to the server. */
    method Write(note: Note, await: Await) returns (sent: Sent)
      modifies `failed, `writeUncertain, `gone, `delivered, `doubtful
      ensures State().link == Frame(old(State()).link, note, await).0
      ensures sent == Frame(old(State()).link, note, await).1
    {
      if failed {
        return Raised;
      }
      match if gone && await.fate == Delivered then BrokenPipe else await.fate
      case Delivered =>
        delivered := delivered + [note];
        return Committed(await.cancelled);
      case NotSent =>
        return Raised;
      case Uncertain =>
        writeUncertain, failed, doubtful := true, true, if gone then doubtful else Some(note);
        return Raised;
      case BrokenPipe =>
        gone, doubtful := true, if gone then doubtful else Some(note);
        return Raised;
    }

    /**
     * One awaited notification. It never breaks the protocol, and the server's view moves from one document
     * map to another exactly when the caller is told that the notification was committed.
     */
    method NotifyCommitted(note: Note, await: Await) returns (sent: Sent)
      modifies `failed, `writeUncertain, `gone, `delivered, `doubtful
      ensures (State().link, sent) == Send(old(State()).link, note, await)
      ensures old(CanReceive(State().link, note)) ==> Conforms(State().link)
      ensures forall before, after ::
        old(Conforms(State().link) && InStep(State().link, before)) && Moves(before, note, after) ==>
          InStep(State().link, if sent.Committed? then after else before)
    {
      ghost var link := State().link;
      sent := Write(note, await);
      failed := failed || await.othersFailed || await.othersUncertain;
      writeUncertain := writeUncertain || await.othersUncertain;
      if CanReceive(link, note) {
        SendConforms(link, note, await);
      }
      forall before, after | Conforms(link) && InStep(link, before) && Moves(before, note, after)
        ensures InStep(State().link, if sent.Committed? then after else before)
      {
        SendKeepsStep(link, note, await, before, after);
      }
    }

    /**
     * Closes one document while another, not yet announced, may be excluded. The mirror of all the others is
     * kept, and the document stays open exactly when the close failed and could be undone.
     */
    method CloseDocument(uri: Uri, await: Await) returns (sent: Sent)
      requires uri in documents
      modifies this
      ensures (State(), sent) == Close(old(State()), uri, await)
      ensures documents ==
        if sent.Raised? && (old(writeUncertain) || !writeUncertain) then old(documents) else old(documents) - {uri}
      ensures forall exclude :: old(Inserted(State(), exclude)) && uri != exclude ==> Inserted(State(), exclude)
    {
      ghost var before := State();
      var document := documents[uri];
      order, documents := Without(order, uri), documents - {uri};
      var uncertain := writeUncertain;
      sent := NotifyCommitted(DidClose(uri), await);
      if sent.Raised? && (uncertain || !writeUncertain) {
        order, documents := order + [uri], documents[uri := document];
        assert documents == before.documents;
      }
      forall exclude | Inserted(before, exclude) && uri != exclude ensures Inserted(State(), exclude) {
        CloseKeepsStep(before, uri, await, exclude);
      }
    }

    method OldestDocument(exclude: Uri) returns (uri: Uri)
      requires |order| > 0
      modifies `order
      ensures (State(), uri) == Oldest(old(State()), exclude)
    {
      uri := order[0];
      if uri == exclude {
        order := Without(order, uri) + [uri];
        uri := order[0];
      }
    }

    method EvictDocuments(exclude: Uri, awaits: nat -> Await) returns (reply: Reply)
      requires Inserted(State(), exclude)
      modifies this
      ensures (State(), reply) == Evict(old(State()), exclude, awaits, 0)
    {
      var step := 0;
      while |order| > MAX_OPEN_DOCUMENTS
        invariant Inserted(State(), exclude)
        invariant Evict(State(), exclude, awaits, step) == old(Evict(State(), exclude, awaits, 0))
        decreases |documents|
      {
        OldestIsOpen(State(), exclude);
        var uri := OldestDocument(exclude);
        CloseKeepsStep(State(), uri, awaits(step), exclude);
        CloseShrinks(State(), uri, awaits(step));
        var sent := CloseDocument(uri, awaits(step));
        if sent.Raised? {
          return Failed;
        }
        if sent.cancelled {
          return Cancelled;
        }
        step := step + 1;
      }
      return Ready;
    }

    method OpenDocument(uri: Uri, language: string, text: string, awaits: nat -> Await, last: Await)
      returns (reply: Reply)
      requires Valid(State()) && uri !in documents
      modifies this
      ensures (State(), reply) == Open(old(State()), uri, language, text, awaits, last)
    {
      ghost var inserted := Put(State(), uri, Document(language, text, 1));
      DictionaryKeepsOrder(State(), uri, Document(language, text, 1));
      assert inserted.documents - {uri} == documents;
      EvictKeepsStep(inserted, uri, awaits, 0);
      var uncertain := writeUncertain;
      order, documents := order + [uri], documents[uri := Document(language, text, 1)];
      reply := EvictDocuments(uri, awaits);
      if reply.Ready? {
        var sent := NotifyCommitted(DidOpen(uri, 1, text), last);
        reply := if sent.Raised? then Failed else if sent.cancelled then Cancelled else Ready;
        if sent.Committed? {
          if reply.Ready? {
            order := Without(order, uri) + [uri];
          }
          return;
        }
      }
      if uncertain || !writeUncertain {
        order, documents := Without(order, uri), documents - {uri};
      }
    }

    method ReviseDocument(uri: Uri, changed: Document, await: Await) returns (sent: Sent)
      requires uri in documents
      modifies this
      ensures State() == Revise(old(State()), uri, changed, await).0
      ensures sent == Revise(old(State()), uri, changed, await).1
    {
      var previous, uncertain := documents[uri], writeUncertain;
      documents := documents[uri := changed];
      sent := NotifyCommitted(DidChange(uri, changed.version, changed.text), await);
      if sent.Raised? && (uncertain || !writeUncertain) {
        documents := documents[uri := previous];
        assert documents == old(documents);
      }
    }

    method ChangeDocument(uri: Uri, language: string, text: string, await: Await) returns (reply: Reply)
      requires Valid(State()) && uri in documents
      modifies this
      ensures (State(), reply) == Change(old(State()), uri, language, text, await)
    {
      var previous := documents[uri];
      if previous.text != text || previous.language != language {
        var sent := ReviseDocument(uri, Document(language, text, previous.version + 1), await);
        if sent.Raised? {
          return Failed;
        }
        if sent.cancelled {
          return Cancelled;
        }
      }
      order := Without(order, uri) + [uri];
      return Ready;
    }

    /** Every operation that needs a document goes through here; it keeps the mirror. */
    method RequireDocument(uri: Uri, language: string, text: string, awaits: nat -> Await, last: Await)
      returns (reply: Reply)
      requires Valid(State())
      modifies this
      ensures Valid(State())
      ensures (State(), reply) == Handle(old(State()), Use(uri, language, text, awaits, last))
    {
      HandleKeepsValid(State(), Use(uri, language, text, awaits, last));
      if uri in documents {
        reply := ChangeDocument(uri, language, text, last);
      } else {
        reply := OpenDocument(uri, language, text, awaits, last);
      }
    }
  }
}
