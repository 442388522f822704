/** The client-side map of open documents of one language server. */
module DocumentMirror {
  // It is kept in step with the server across delivered, unsent, cancelled and uncertain notifications.

  import opened Outcomes
  import opened OrderedKeys

  type Uri = string

  const MAX_OPEN_DOCUMENTS := 128

  datatype Document = Document(language: string, text: string, version: int)

  // ---- What the server sees ----

  datatype Note =
    | DidOpen(uri: Uri, version: int, text: string)
    | DidChange(uri: Uri, version: int, text: string)
    | DidClose(uri: Uri)

  datatype Seen = Seen(version: int, text: string)

  type View = map<Uri, Seen>

  /**
   * One notification at the server. None is a protocol violation: opening an open document, changing or
   * closing one that is not open, or a version that does not increase within its session.
   */
  function Receive(view: View, note: Note): Option<View> {
    match note
    case DidOpen(uri, version, text) =>
      if uri in view then None else Some(view[uri := Seen(version, text)])
    case DidChange(uri, version, text) =>
      if uri !in view || version <= view[uri].version then None else Some(view[uri := Seen(version, text)])
    case DidClose(uri) =>
      if uri !in view then None else Some(view - {uri})
  }

  function Fold(log: seq<Note>): Option<View> {
    if log == [] then Some(map[])
    else match Fold(log[..|log| - 1])
      case None => None
      case Some(view) => Receive(view, log[|log| - 1])
  }

  function Project(documents: map<Uri, Document>): View {
    map uri | uri in documents :: Seen(documents[uri].version, documents[uri].text)
  }

  /** The version a log entry announces for `uri`, if it opens or changes it. */
  predicate Announces(note: Note, uri: Uri) {
    !note.DidClose? && note.uri == uri
  }

  /**
   * In a log the server accepts, the versions announced for a document strictly increase from any point
   * to a later one unless the document was closed in between.
   */
  lemma {:induction false} VersionsIncreaseWithinSession(log: seq<Note>, i: nat, uri: Uri)
    requires Fold(log).Some? && i < |log| && Announces(log[i], uri)
    requires DidClose(uri) !in log[i..]
    ensures uri in Fold(log).value && log[i].version <= Fold(log).value[uri].version
    ensures forall j :: i < j < |log| && Announces(log[j], uri) ==>
      log[j].DidChange? && log[i].version < log[j].version
  {
    var n := |log| - 1;
    if i < n {
      assert log[..n][i..] == log[i..][..n - i];
      VersionsIncreaseWithinSession(log[..n], i, uri);
      assert log[n] == log[i..][n - i];
    }
  }

  // ---- What can happen to a write ----

  /** BrokenPipe and Uncertain leave open whether the server processed the frame. */
  datatype Fate = Delivered | NotSent | Uncertain | BrokenPipe

  /** One awaited write, with what other tasks of the same server did meanwhile. */
  datatype Await = Await(fate: Fate, cancelled: bool, othersFailed: bool, othersUncertain: bool)

  datatype Sent = Committed(cancelled: bool) | Raised

  datatype Reply = Ready | Cancelled | Failed

  /**
   * The connection: its failure flags, the notifications the server has certainly received, and the last
   * one if it may or may not have been received. `gone` is no flag of the program but the state of the pipe:
   * once it is broken the server receives nothing more, though the program may try to write again.
   */
  datatype Link = Link(failed: bool, writeUncertain: bool, gone: bool, delivered: seq<Note>, doubtful: Option<Note>)

  /** What becomes of a write: through a broken pipe nothing is delivered. */
  function Outcome(link: Link, fate: Fate): Fate {
    if link.gone && fate == Delivered then BrokenPipe else fate
  }

  /** Writes one frame, unless an earlier failure forbids it. */
  function Frame(link: Link, note: Note, await: Await): (Link, Sent) {
    var doubtful := if link.gone then link.doubtful else Some(note);
    if link.failed then (link, Raised)
    else match Outcome(link, await.fate)
      case Delivered => (link.(delivered := link.delivered + [note]), Committed(await.cancelled))
      case NotSent => (link, Raised)
      case Uncertain => (link.(failed := true, writeUncertain := true, doubtful := doubtful), Raised)
      case BrokenPipe => (link.(gone := true, doubtful := doubtful), Raised)
  }

  /** What other tasks of the server do to the connection while the write is awaited. */
  function Meanwhile(link: Link, await: Await): Link {
    link.(failed := link.failed || await.othersFailed || await.othersUncertain,
          writeUncertain := link.writeUncertain || await.othersUncertain)
  }

  function Send(link: Link, note: Note, await: Await): (Link, Sent) {
    var (after, sent) := Frame(link, note, await);
    (Meanwhile(after, await), sent)
  }

  /** No notification breaks the protocol, not even one whose delivery is in doubt. */
  ghost predicate Conforms(link: Link) {
    && Fold(link.delivered).Some?
    && (link.doubtful.Some? ==>
          (link.writeUncertain || link.gone) && Receive(Fold(link.delivered).value, link.doubtful.value).Some?)
    && (link.writeUncertain ==> link.failed)
  }

  ghost predicate InStep(link: Link, documents: map<Uri, Document>) {
    link.writeUncertain || link.gone || Fold(link.delivered) == Some(Project(documents))
  }

  /** At the server, the notification turns the view of one document map into that of another. */
  predicate Moves(before: map<Uri, Document>, note: Note, after: map<Uri, Document>) {
    Receive(Project(before), note) == Some(Project(after))
  }

  /** The notification keeps the protocol if it gets through. */
  ghost predicate CanReceive(link: Link, note: Note) {
    Conforms(link) && (link.failed || link.gone || Receive(Fold(link.delivered).value, note).Some?)
  }

  /** One notification moves the server from the view of `before` to that of `after`, or leaves it there. */
  lemma SendKeepsStep(link: Link, note: Note, await: Await, before: map<Uri, Document>, after: map<Uri, Document>)
    requires Conforms(link) && InStep(link, before) && Moves(before, note, after)
    ensures var (link', sent) := Send(link, note, await);
      && InStep(link', if sent.Committed? then after else before)
      && (link.writeUncertain ==> link'.writeUncertain && sent.Raised?)
      && link'.delivered == if sent.Committed? then link.delivered + [note] else link.delivered
  {
  }

  lemma SendConforms(link: Link, note: Note, await: Await)
    requires CanReceive(link, note)
    ensures Conforms(Send(link, note, await).0)
  {
  }

  // ---- The ordered dictionary of open documents ----

  /** Least recently used first. */
  datatype Session = Session(order: seq<Uri>, documents: map<Uri, Document>, link: Link)

  function MoveToEnd(s: Session, uri: Uri): Session {
    s.(order := Without(s.order, uri) + [uri])
  }

  function Remove(s: Session, uri: Uri): Session {
    s.(order := Without(s.order, uri), documents := s.documents - {uri})
  }

  function Put(s: Session, uri: Uri, document: Document): Session {
    s.(order := if uri in s.documents then s.order else s.order + [uri], documents := s.documents[uri := document])
  }

  ghost predicate Ordered(s: Session) {
    Lists(s.order, s.documents.Keys)
  }

  lemma DictionaryKeepsOrder(s: Session, uri: Uri, document: Document)
    requires Ordered(s)
    ensures Ordered(Put(s, uri, document))
    ensures uri in s.documents ==> Ordered(Remove(s, uri)) && Ordered(MoveToEnd(s, uri))
  {
    if uri in s.documents {
      assert s.documents[uri := document].Keys == s.documents.Keys;
      ListsWithout(s.order, s.documents.Keys, uri);
      assert (s.documents - {uri}).Keys == s.documents.Keys - {uri};
      ListsAppend(Without(s.order, uri), s.documents.Keys - {uri}, uri);
      assert s.documents.Keys - {uri} + {uri} == s.documents.Keys;
    } else {
      ListsAppend(s.order, s.documents.Keys, uri);
      assert s.documents[uri := document].Keys == s.documents.Keys + {uri};
    }
  }

  // ---- Evicting, opening and changing documents ----

  /** Closes one document; unless the write is uncertain, one that was not closed is put back. */
  function Close(s: Session, uri: Uri, await: Await): (Session, Sent)
    requires uri in s.documents
  {
    var document := s.documents[uri];
    var removed := Remove(s, uri);
    var (link, sent) := Send(s.link, DidClose(uri), await);
    if sent.Raised? && (s.link.writeUncertain || !link.writeUncertain)
    then (Put(removed, uri, document).(link := link), sent)
    else (removed.(link := link), sent)
  }

  /** The least recently used document other than `exclude`, which is moved out of the way. */
  function Oldest(s: Session, exclude: Uri): (Session, Uri)
    requires |s.order| > 0
  {
    var turned := if s.order[0] == exclude then MoveToEnd(s, exclude) else s;
    (turned, turned.order[0])
  }

  /** Closes least recently used documents, never the excluded one, until the limit holds again. */
  function Evict(s: Session, exclude: Uri, awaits: nat -> Await, step: nat): (Session, Reply)
    requires Ordered(s)
    decreases |s.documents|
  {
    if |s.order| <= MAX_OPEN_DOCUMENTS then (s, Ready) else
    var (turned, uri) := Oldest(s, exclude);
    OldestIsOpen(s, exclude);
    var (next, sent) := Close(turned, uri, awaits(step));
    if sent.Raised? then (next, Failed)
    else if sent.cancelled then (next, Cancelled)
    else
      CloseShrinks(turned, uri, awaits(step));
      Evict(next, exclude, awaits, step + 1)
  }

  lemma OldestIsOpen(s: Session, exclude: Uri)
    requires Ordered(s) && |s.order| > 0
    ensures var (turned, uri) := Oldest(s, exclude);
      && Ordered(turned) && turned.documents == s.documents && turned.link == s.link && uri in s.documents
      && (|s.order| > 1 ==> uri != exclude)
  {
    ListsMembers(s.order, s.documents.Keys);
    if s.order[0] == exclude {
      DictionaryKeepsOrder(s, exclude, s.documents[exclude]);
      ListsMembers(MoveToEnd(s, exclude).order, s.documents.Keys);
      if |s.order| > 1 {
        ListsMembers(s.order[1..], s.documents.Keys - {exclude});
        assert Without(s.order, exclude)[0] == s.order[1];
        assert s.order[1] in s.order[1..];
      }
    }
  }

  lemma CloseShrinks(s: Session, uri: Uri, await: Await)
    requires Ordered(s) && uri in s.documents
    ensures var (next, sent) := Close(s, uri, await);
      && Ordered(next)
      && (sent.Committed? ==> next.documents == s.documents - {uri} && |next.documents| == |s.documents| - 1)
  {
    DictionaryKeepsOrder(s, uri, s.documents[uri]);
    DictionaryKeepsOrder(Remove(s, uri), uri, s.documents[uri]);
    assert (s.documents - {uri}).Keys == s.documents.Keys - {uri};
  }

  /** `uri` is in the map but not yet announced to the server. */
  ghost predicate Inserted(s: Session, uri: Uri) {
    && Ordered(s) && Conforms(s.link) && uri in s.documents
    && InStep(s.link, s.documents - {uri})
    && |s.order| <= MAX_OPEN_DOCUMENTS + 1
  }

  ghost predicate Valid(s: Session) {
    Ordered(s) && Conforms(s.link) && InStep(s.link, s.documents) && |s.order| <= MAX_OPEN_DOCUMENTS
  }

  lemma ServerCloses(documents: map<Uri, Document>, uri: Uri, exclude: Uri)
    requires uri in documents && uri != exclude
    ensures Receive(Project(documents - {exclude}), DidClose(uri)) == Some(Project(documents - {uri} - {exclude}))
  {
    assert Project(documents - {exclude}) - {uri} == Project(documents - {uri} - {exclude});
  }

  lemma CloseKeepsStep(s: Session, uri: Uri, await: Await, exclude: Uri)
    requires Inserted(s, exclude) && uri in s.documents && uri != exclude
    ensures var (next, sent) := Close(s, uri, await);
      && Inserted(next, exclude)
      && (s.link.writeUncertain ==> next.link.writeUncertain)
      && next.documents ==
           if sent.Raised? && (s.link.writeUncertain || !next.link.writeUncertain) then s.documents
           else s.documents - {uri}
  {
    var (next, sent) := Close(s, uri, await);
    CloseShrinks(s, uri, await);
    ServerCloses(s.documents, uri, exclude);
    SendKeepsStep(s.link, DidClose(uri), await, s.documents - {exclude}, s.documents - {uri} - {exclude});
    CloseConforms(s.link, s.documents, uri, await, exclude);
    assert (s.documents - {uri})[uri := s.documents[uri]] == s.documents;
    ListsMembers(s.order, s.documents.Keys);
    ListsMembers(next.order, next.documents.Keys);
    assert next.documents.Keys <= s.documents.Keys;
    FewerKeys(next.documents.Keys, s.documents.Keys);
  }

  lemma CloseConforms(link: Link, documents: map<Uri, Document>, uri: Uri, await: Await, exclude: Uri)
    requires Conforms(link) && InStep(link, documents - {exclude}) && uri in documents && uri != exclude
    ensures Conforms(Send(link, DidClose(uri), await).0)
  {
    ServerCloses(documents, uri, exclude);
    SendConforms(link, DidClose(uri), await);
  }

  /** What eviction may close: with one document too many, the least recently used one other than the excluded. */
  ghost predicate EvictsOldest(s: Session, next: Session, reply: Reply, exclude: Uri) {
    if |s.order| <= MAX_OPEN_DOCUMENTS then next == s && reply.Ready?
    else
      var victim := Oldest(s, exclude).1;
      next.documents ==
        if reply.Failed? && (s.link.writeUncertain || !next.link.writeUncertain) then s.documents
        else s.documents - {victim}
  }

  /**
   * Eviction leaves the limit met, or fails having changed nothing that could not be rolled back. It closes
   * at most the least recently used document, and puts it back unless the write is uncertain.
   */
  lemma {:induction false} EvictKeepsStep(s: Session, exclude: Uri, awaits: nat -> Await, step: nat)
    requires Inserted(s, exclude)
    ensures var (next, reply) := Evict(s, exclude, awaits, step);
      && Inserted(next, exclude)
      && next.documents[exclude] == s.documents[exclude]
      && (s.link.writeUncertain ==> next.link.writeUncertain)
      && (|next.order| <= MAX_OPEN_DOCUMENTS ||
            (reply.Failed? && (s.link.writeUncertain || !next.link.writeUncertain)))
      && EvictsOldest(s, next, reply, exclude)
    decreases |s.documents|
  {
    if |s.order| > MAX_OPEN_DOCUMENTS {
      OldestIsOpen(s, exclude);
      var (turned, uri) := Oldest(s, exclude);
      ListsMembers(turned.order, turned.documents.Keys);
      ListsMembers(s.order, s.documents.Keys);
      CloseKeepsStep(turned, uri, awaits(step), exclude);
      CloseShrinks(turned, uri, awaits(step));
      var (next, sent) := Close(turned, uri, awaits(step));
      ListsMembers(next.order, next.documents.Keys);
      if sent.Committed? && !sent.cancelled {
        EvictKeepsStep(next, exclude, awaits, step + 1);
      }
    }
  }

  /** What `_document` does once the text is read: nothing, or one of the two notifications. */
  function Open(s: Session, uri: Uri, language: string, text: string, awaits: nat -> Await, last: Await)
    : (Session, Reply)
    requires Ordered(s) && uri !in s.documents
  {
    DictionaryKeepsOrder(s, uri, Document(language, text, 1));
    var (evicted, reply) := Evict(Put(s, uri, Document(language, text, 1)), uri, awaits, 0);
    if !reply.Ready? then (RollBack(s, evicted, uri), reply) else Announce(s, evicted, uri, text, last)
  }

  function Announce(s: Session, evicted: Session, uri: Uri, text: string, last: Await): (Session, Reply) {
    var (link, sent) := Send(evicted.link, DidOpen(uri, 1, text), last);
    var after := evicted.(link := link);
    if sent.Raised? then (RollBack(s, after, uri), Failed)
    else if sent.cancelled then (after, Cancelled)
    else (MoveToEnd(after, uri), Ready)
  }

  function RollBack(before: Session, after: Session, uri: Uri): Session {
    if before.link.writeUncertain || !after.link.writeUncertain then Remove(after, uri) else after
  }

  /** Replaces an open document and announces it; unless the write is uncertain, a failure is rolled back. */
  function Revise(s: Session, uri: Uri, changed: Document, await: Await): (Session, Sent)
    requires uri in s.documents
  {
    var (link, sent) := Send(s.link, DidChange(uri, changed.version, changed.text), await);
    if sent.Raised? && (s.link.writeUncertain || !link.writeUncertain) then (s.(link := link), sent)
    else (Put(s, uri, changed).(link := link), sent)
  }

  function Change(s: Session, uri: Uri, language: string, text: string, await: Await): (Session, Reply)
    requires uri in s.documents
  {
    var previous := s.documents[uri];
    if previous.text == text && previous.language == language then (MoveToEnd(s, uri), Ready)
    else
      var (next, sent) := Revise(s, uri, Document(language, text, previous.version + 1), await);
      if sent.Raised? then (next, Failed)
      else if sent.cancelled then (next, Cancelled)
      else (MoveToEnd(next, uri), Ready)
  }

  lemma OpenKeepsValid(s: Session, uri: Uri, language: string, text: string, awaits: nat -> Await, last: Await)
    requires Valid(s) && uri !in s.documents
    ensures var (next, reply) := Open(s, uri, language, text, awaits, last);
      Valid(next) && (reply.Ready? ==> uri in next.documents && next.documents[uri] == Document(language, text, 1))
  {
    var document := Document(language, text, 1);
    var inserted := Put(s, uri, document);
    DictionaryKeepsOrder(s, uri, document);
    assert inserted.documents - {uri} == s.documents;
    EvictKeepsStep(inserted, uri, awaits, 0);
    var (evicted, reply) := Evict(inserted, uri, awaits, 0);
    if reply.Ready? {
      AnnounceKeepsValid(s, evicted, uri, last);
    } else {
      RollBackKeepsValid(s, evicted, uri);
    }
  }

  lemma AnnounceKeepsValid(s: Session, evicted: Session, uri: Uri, last: Await)
    requires Inserted(evicted, uri) && evicted.documents[uri].version == 1 && |evicted.order| <= MAX_OPEN_DOCUMENTS
    requires s.link.writeUncertain ==> evicted.link.writeUncertain
    ensures var (link, sent) := Send(evicted.link, DidOpen(uri, 1, evicted.documents[uri].text), last);
      var after := evicted.(link := link);
      if sent.Raised? then Valid(RollBack(s, after, uri)) else Valid(after) && Valid(MoveToEnd(after, uri))
  {
    var document := evicted.documents[uri];
    var note := DidOpen(uri, 1, document.text);
    assert Project(evicted.documents - {uri})[uri := Seen(1, document.text)] == Project(evicted.documents);
    SendKeepsStep(evicted.link, note, last, evicted.documents - {uri}, evicted.documents);
    SendConforms(evicted.link, note, last);
    var (link, sent) := Send(evicted.link, note, last);
    if sent.Raised? {
      RollBackKeepsValid(s, evicted.(link := link), uri);
    } else {
      MoveKeepsValid(evicted.(link := link), uri);
    }
  }

  lemma MoveKeepsValid(s: Session, uri: Uri)
    requires Valid(s) && uri in s.documents
    ensures Valid(MoveToEnd(s, uri))
  {
    DictionaryKeepsOrder(s, uri, s.documents[uri]);
    ListsMembers(s.order, s.documents.Keys);
    ListsMembers(MoveToEnd(s, uri).order, s.documents.Keys);
  }

  lemma RollBackKeepsValid(before: Session, after: Session, uri: Uri)
    requires Ordered(after) && Conforms(after.link) && uri in after.documents
    requires before.link.writeUncertain ==> after.link.writeUncertain
    requires InStep(after.link, after.documents - {uri}) && |after.order| <= MAX_OPEN_DOCUMENTS + 1
    requires |after.order| <= MAX_OPEN_DOCUMENTS || before.link.writeUncertain || !after.link.writeUncertain
    ensures Valid(RollBack(before, after, uri))
  {
    DictionaryKeepsOrder(after, uri, after.documents[uri]);
    ListsMembers(after.order, after.documents.Keys);
    ListsMembers(Remove(after, uri).order, Remove(after, uri).documents.Keys);
    assert (after.documents - {uri}).Keys == after.documents.Keys - {uri};
  }

  lemma ChangeKeepsValid(s: Session, uri: Uri, language: string, text: string, await: Await)
    requires Valid(s) && uri in s.documents
    ensures var (next, reply) := Change(s, uri, language, text, await);
      && Valid(next)
      && (reply.Ready? ==>
            && uri in next.documents
            && next.documents[uri].text == text && next.documents[uri].language == language)
  {
    var previous := s.documents[uri];
    if previous.text == text && previous.language == language {
      MoveKeepsValid(s, uri);
    } else {
      var changed := Document(language, text, previous.version + 1);
      AnnounceChange(s, uri, changed, await);
      var (link, sent) := Send(s.link, DidChange(uri, changed.version, text), await);
      if sent.Committed? {
        MoveKeepsValid(Put(s, uri, changed).(link := link), uri);
      }
    }
  }

  lemma AnnounceChange(s: Session, uri: Uri, changed: Document, await: Await)
    requires Valid(s) && uri in s.documents && changed.version == s.documents[uri].version + 1
    ensures var (link, sent) := Send(s.link, DidChange(uri, changed.version, changed.text), await);
      && (sent.Raised? ==> Valid(s.(link := link)))
      && (sent.Committed? || link.writeUncertain ==> Valid(Put(s, uri, changed).(link := link)))
  {
    var note := DidChange(uri, changed.version, changed.text);
    DictionaryKeepsOrder(s, uri, changed);
    assert Project(s.documents)[uri := Seen(changed.version, changed.text)] == Project(s.documents[uri := changed]);
    SendKeepsStep(s.link, note, await, s.documents, s.documents[uri := changed]);
    SendConforms(s.link, note, await);
  }

  // ---- Whole runs ----

  /** A request that needs a document, or anything other tasks do to the connection in between. */
  datatype Event =
    | Use(uri: Uri, language: string, text: string, awaits: nat -> Await, last: Await)
    | Interfere(failed: bool, uncertain: bool, gone: bool)

  const FRESH := Session([], map[], Link(false, false, false, [], None))

  function Handle(s: Session, event: Event): (Session, Reply)
    requires Ordered(s)
  {
    match event
    case Use(uri, language, text, awaits, last) =>
      if uri in s.documents then Change(s, uri, language, text, last)
      else Open(s, uri, language, text, awaits, last)
    case Interfere(failed, uncertain, gone) =>
      (s.(link := s.link.(failed := s.link.failed || failed || uncertain,
                          writeUncertain := s.link.writeUncertain || uncertain,
                          gone := s.link.gone || gone)), Ready)
  }

  lemma HandleKeepsValid(s: Session, event: Event)
    requires Valid(s)
    ensures Valid(Handle(s, event).0)
    ensures event.Use? && Handle(s, event).1.Ready? ==>
      var documents := Handle(s, event).0.documents;
      event.uri in documents && documents[event.uri].text == event.text
  {
    match event
    case Use(uri, language, text, awaits, last) =>
      if uri in s.documents {
        ChangeKeepsValid(s, uri, language, text, last);
      } else {
        OpenKeepsValid(s, uri, language, text, awaits, last);
      }
    case Interfere(_, _, _) =>
  }

  ghost function Run(events: seq<Event>): (s: Session)
    ensures Valid(s)
  {
    if events == [] then FRESH
    else
      var before := Run(events[..|events| - 1]);
      HandleKeepsValid(before, events[|events| - 1]);
      Handle(before, events[|events| - 1]).0
  }

  /** A run handles its events one after the other. */
  lemma RunHandles(events: seq<Event>, event: Event)
    ensures Run(events + [event]) == Handle(Run(events), event).0
  {
    assert (events + [event])[..|events|] == events;
  }

  /**
   * In every run: the server has accepted every notification, at most 128 documents are open, and unless
   * a write is uncertain (then the connection is failed) or the server is gone, the server sees exactly
   * the client's versions and texts.
   */
  lemma RunKeepsMirror(events: seq<Event>)
    ensures var s := Run(events);
      && Fold(s.link.delivered).Some?
      && (s.link.doubtful.Some? ==> Fold(s.link.delivered + [s.link.doubtful.value]).Some?)
      && |s.documents| <= MAX_OPEN_DOCUMENTS
      && (s.link.writeUncertain ==> s.link.failed)
      && (s.link.writeUncertain || s.link.gone || Fold(s.link.delivered) == Some(Project(s.documents)))
  {
    var s := Run(events);
    ListsMembers(s.order, s.documents.Keys);
  }

  /**
   * After a failure nothing more is written, and after a broken pipe a write can only fail again: whatever
   * is asked, the server receives nothing more.
   */
  lemma {:induction false} FailedSendsNothing(s: Session, events: seq<Event>)
    requires Valid(s) && Stopped(s.link)
    ensures Continue(s, events).link.delivered == s.link.delivered
    decreases |events|
  {
    if events != [] {
      HandleKeepsValid(s, events[0]);
      StoppedHandles(s, events[0]);
      FailedSendsNothing(Handle(s, events[0]).0, events[1..]);
    }
  }

  predicate Stopped(link: Link) {
    link.failed || link.gone
  }

  lemma StoppedSends(link: Link, note: Note, await: Await)
    requires Stopped(link)
    ensures var (after, sent) := Send(link, note, await);
      sent.Raised? && Stopped(after) && after.delivered == link.delivered
  {
  }

  lemma StoppedHandles(s: Session, event: Event)
    requires Ordered(s) && Stopped(s.link)
    ensures var link := Handle(s, event).0.link; Stopped(link) && link.delivered == s.link.delivered
  {
    if event.Use? {
      if event.uri in s.documents {
        StoppedSends(s.link, DidChange(event.uri, s.documents[event.uri].version + 1, event.text), event.last);
      } else {
        StoppedOpens(s, event.uri, event.language, event.text, event.awaits, event.last);
      }
    }
  }

  lemma StoppedOpens(s: Session, uri: Uri, language: string, text: string, awaits: nat -> Await, last: Await)
    requires Ordered(s) && Stopped(s.link) && uri !in s.documents
    ensures var link := Open(s, uri, language, text, awaits, last).0.link;
      Stopped(link) && link.delivered == s.link.delivered
  {
    var inserted := Put(s, uri, Document(language, text, 1));
    DictionaryKeepsOrder(s, uri, Document(language, text, 1));
    StoppedEvicts(inserted, uri, awaits);
    StoppedSends(Evict(inserted, uri, awaits, 0).0.link, DidOpen(uri, 1, text), last);
  }

  lemma StoppedEvicts(s: Session, exclude: Uri, awaits: nat -> Await)
    requires Ordered(s) && Stopped(s.link)
    ensures var (next, reply) := Evict(s, exclude, awaits, 0);
      Stopped(next.link) && next.link.delivered == s.link.delivered
  {
    if |s.order| > MAX_OPEN_DOCUMENTS {
      OldestIsOpen(s, exclude);
      StoppedSends(s.link, DidClose(Oldest(s, exclude).1), awaits(0));
    }
  }

  ghost function Continue(s: Session, events: seq<Event>): (r: Session)
    requires Valid(s)
    decreases |events|
  {
    if events == [] then s
    else
      HandleKeepsValid(s, events[0]);
      Continue(Handle(s, events[0]).0, events[1..])
  }

  // ---- What exactly a request does ----

  /** A notification is committed exactly when the connection is up and the write is delivered. */
  predicate GetsThrough(link: Link, await: Await) {
    !link.failed && !link.gone && await.fate == Delivered
  }

  lemma SendExactly(link: Link, note: Note, await: Await)
    ensures var (after, sent) := Send(link, note, await);
      && sent == (if GetsThrough(link, await) then Committed(await.cancelled) else Raised)
      && after.delivered == (if GetsThrough(link, await) then link.delivered + [note] else link.delivered)
      && (after.failed <==> link.failed || await.fate == Uncertain || await.othersFailed || await.othersUncertain)
      && (after.writeUncertain <==>
            link.writeUncertain || (!link.failed && await.fate == Uncertain) || await.othersUncertain)
      && (after.gone <==> link.gone || (!link.failed && await.fate == BrokenPipe))
      && after.doubtful ==
           (if !link.failed && !link.gone && (await.fate == Uncertain || await.fate == BrokenPipe) then Some(note)
            else link.doubtful)
  {
  }

  /** A change made before a failed write is undone unless that write has made the connection uncertain. */
  predicate Undone(before: Link, after: Link) {
    before.writeUncertain || !after.writeUncertain
  }

  /** The map is that of before, with this document behind all others if it stays. */
  predicate HoldsLast(before: Session, next: Session, uri: Uri, document: Document, stays: bool) {
    && next.documents == (if stays then before.documents[uri := document] else before.documents)
    && next.order == (if stays then before.order + [uri] else before.order)
  }

  /** The didOpen of the document when the map holds `others` besides it and the link is `link`. */
  predicate Announced(first: Link, others: Session, link: Link, uri: Uri, document: Document, last: Await,
                      next: Session, reply: Reply)
  {
    && next.link == Send(link, DidOpen(uri, document.version, document.text), last).0
    && (if GetsThrough(link, last) then
          HoldsLast(others, next, uri, document, true) && reply == (if last.cancelled then Cancelled else Ready)
        else HoldsLast(others, next, uri, document, !Undone(first, next.link)) && reply.Failed?)
  }

  /** The least recently used document is closed, and only if that succeeds the new one is announced. */
  predicate ClosesFirst(s: Session, uri: Uri, document: Document, first: Await, last: Await,
                        next: Session, reply: Reply)
    requires s.order != [] && s.order[0] in s.documents
  {
    var oldest := s.order[0];
    var link := Send(s.link, DidClose(oldest), first).0;
    var others := Session(s.order[1..], s.documents - {oldest}, link);
    if !GetsThrough(s.link, first) then
      reply.Failed? && next.link == link &&
      if Undone(s.link, link) then next.documents == s.documents && next.order == s.order[1..] + [oldest]
      else HoldsLast(others, next, uri, document, true)
    else if first.cancelled then
      reply.Cancelled? && next.link == link && HoldsLast(others, next, uri, document, !Undone(s.link, link))
    else Announced(s.link, others, link, uri, document, last, next, reply)
  }

  /**
   * Opening a document, for every fate of its writes. With room, it is announced; with a full map, the least
   * recently used document is closed before that. What has been answered, sent and put back is all stated.
   */
  lemma OpensExactly(s: Session, uri: Uri, language: string, text: string, awaits: nat -> Await, last: Await)
    requires Valid(s) && uri !in s.documents
    ensures s.order != [] ==> s.order[0] in s.documents
    ensures var (next, reply) := Open(s, uri, language, text, awaits, last);
      var document := Document(language, text, 1);
      if |s.documents| < MAX_OPEN_DOCUMENTS then Announced(s.link, s, s.link, uri, document, last, next, reply)
      else s.order != [] && ClosesFirst(s, uri, document, awaits(0), last, next, reply)
  {
    var document := Document(language, text, 1);
    var inserted := Put(s, uri, document);
    DictionaryKeepsOrder(s, uri, document);
    ListsMembers(s.order, s.documents.Keys);
    if |s.order| < MAX_OPEN_DOCUMENTS {
      AnnouncesExactly(s, s, inserted, uri, document, last);
    } else {
      OldestGoes(s, uri, document, awaits);
      EvictedAnnounces(s, uri, document, awaits, last);
    }
  }

  lemma AnnouncesExactly(s: Session, others: Session, evicted: Session, uri: Uri, document: Document, last: Await)
    requires uri !in others.order && uri !in others.documents && document.version == 1
    requires evicted.order == others.order + [uri] && evicted.documents == others.documents[uri := document]
    ensures var (next, reply) := Announce(s, evicted, uri, document.text, last);
      Announced(s.link, others, evicted.link, uri, document, last, next, reply)
  {
    SendExactly(evicted.link, DidOpen(uri, 1, document.text), last);
    WithoutLast(others.order, uri);
    assert others.documents[uri := document] - {uri} == others.documents;
  }

  /** With a full map, eviction tries to close the document that was used least recently, and no other. */
  lemma OldestGoes(s: Session, uri: Uri, document: Document, awaits: nat -> Await)
    requires Valid(s) && uri !in s.documents && |s.order| == MAX_OPEN_DOCUMENTS
    ensures Ordered(Put(s, uri, document)) && s.order != [] && s.order[0] in s.documents && uri !in s.order
    ensures var (next, reply) := Evict(Put(s, uri, document), uri, awaits, 0);
      var oldest := s.order[0];
      var link := Send(s.link, DidClose(oldest), awaits(0)).0;
      && next.link == link
      && reply == (if !GetsThrough(s.link, awaits(0)) then Failed else if awaits(0).cancelled then Cancelled else Ready)
      && (if reply.Failed? && Undone(s.link, link) then
            next.documents == s.documents[uri := document] && next.order == s.order[1..] + [uri] + [oldest]
          else next.documents == (s.documents - {oldest})[uri := document] && next.order == s.order[1..] + [uri])
  {
    var inserted, oldest := Put(s, uri, document), s.order[0];
    DictionaryKeepsOrder(s, uri, document);
    ListsMembers(s.order, s.documents.Keys);
    SendExactly(s.link, DidClose(oldest), awaits(0));
    OldestIsOpen(inserted, uri);
    assert Without(inserted.order, oldest) == s.order[1..] + [uri];
    var (next, sent) := Close(inserted, oldest, awaits(0));
    assert s.documents[uri := document] - {oldest} == (s.documents - {oldest})[uri := document];
    assert (s.documents[uri := document] - {oldest})[oldest := s.documents[oldest]] == s.documents[uri := document];
    CloseShrinks(inserted, oldest, awaits(0));
  }

  lemma EvictedAnnounces(s: Session, uri: Uri, document: Document, awaits: nat -> Await, last: Await)
    requires Valid(s) && uri !in s.documents && |s.order| == MAX_OPEN_DOCUMENTS && document.version == 1
    ensures s.order != [] && s.order[0] in s.documents
    ensures var (next, reply) := Open(s, uri, document.language, document.text, awaits, last);
      ClosesFirst(s, uri, document, awaits(0), last, next, reply)
  {
    OldestGoes(s, uri, document, awaits);
    var (evicted, reply) := Evict(Put(s, uri, document), uri, awaits, 0);
    var oldest := s.order[0];
    var others := Session(s.order[1..], s.documents - {oldest}, evicted.link);
    assert uri !in others.order;
    if reply.Ready? {
      AnnouncesExactly(s, others, evicted, uri, document, last);
    } else {
      WithoutLast(s.order[1..], uri);
      assert others.documents[uri := document] - {uri} == others.documents;
      assert s.documents[uri := document] - {uri} == s.documents;
      WithoutBefore(s.order[1..], uri, oldest);
    }
  }

  lemma {:induction false} WithoutBefore(order: seq<Uri>, uri: Uri, last: Uri)
    requires uri !in order
    ensures Without(order + [uri] + [last], uri) == order + [last]
  {
    if order != [] {
      assert (order + [uri] + [last])[1..] == order[1..] + [uri] + [last];
      WithoutBefore(order[1..], uri, last);
    }
  }

  /**
   * Using an open document, for every fate of the write. Nothing is sent where nothing changed; else a change
   * with the next version is, and the document holds it exactly if the write got through or cannot be undone.
   */
  lemma ChangesExactly(s: Session, uri: Uri, language: string, text: string, await: Await)
    requires Valid(s) && uri in s.documents
    ensures var (next, reply) := Change(s, uri, language, text, await);
      var (previous, order) := (s.documents[uri], Without(s.order, uri) + [uri]);
      if previous.text == text && previous.language == language then
        next == s.(order := order) && reply.Ready?
      else
        var changed := Document(language, text, previous.version + 1);
        && next.link == Send(s.link, DidChange(uri, changed.version, text), await).0
        && (if GetsThrough(s.link, await) then
              && next.documents == s.documents[uri := changed]
              && (if await.cancelled then reply.Cancelled? && next.order == s.order
                  else reply.Ready? && next.order == order)
            else
              && reply.Failed? && next.order == s.order
              && next.documents == (if Undone(s.link, next.link) then s.documents else s.documents[uri := changed]))
  {
    var previous := s.documents[uri];
    SendExactly(s.link, DidChange(uri, previous.version + 1, text), await);
  }

  /** No other task interferes with the write. */
  predicate Undisturbed(link: Link, await: Await) {
    GetsThrough(link, await) && !await.cancelled && !await.othersFailed && !await.othersUncertain
  }

  /**
   * While the connection is up and the write is delivered undisturbed, an open document is answered for: it is
   * last in the order with the text asked for, and the server has received one change, or nothing where it has
   * that text already.
   */
  lemma UndisturbedChanges(s: Session, event: Event)
    requires Valid(s) && event.Use? && event.uri in s.documents && Undisturbed(s.link, event.last)
    ensures var (next, reply) := Handle(s, event);
      var previous := s.documents[event.uri];
      var version := previous.version + 1;
      && reply.Ready? && next.order == Without(s.order, event.uri) + [event.uri]
      && (if previous.text == event.text && previous.language == event.language
          then next.documents == s.documents && next.link == s.link
          else
            && next.documents == s.documents[event.uri := Document(event.language, event.text, version)]
            && next.link.delivered == s.link.delivered + [DidChange(event.uri, version, event.text)])
  {
    ChangesExactly(s, event.uri, event.language, event.text, event.last);
    SendExactly(s.link, DidChange(event.uri, s.documents[event.uri].version + 1, event.text), event.last);
  }

  /** And so is a new one: it is announced, after the least recently used one is closed if the map was full. */
  lemma UndisturbedOpens(s: Session, event: Event)
    requires Valid(s) && event.Use? && event.uri !in s.documents && Undisturbed(s.link, event.last)
    requires |s.documents| >= MAX_OPEN_DOCUMENTS ==> Undisturbed(s.link, event.awaits(0))
    ensures var (next, reply) := Handle(s, event);
      var document := Document(event.language, event.text, 1);
      var announced := DidOpen(event.uri, 1, event.text);
      && reply.Ready?
      && (if |s.documents| < MAX_OPEN_DOCUMENTS then
            && next.documents == s.documents[event.uri := document] && next.order == s.order + [event.uri]
            && next.link.delivered == s.link.delivered + [announced]
          else
            && s.order != []
            && next.documents == (s.documents - {s.order[0]})[event.uri := document]
            && next.order == s.order[1..] + [event.uri]
            && next.link.delivered == s.link.delivered + [DidClose(s.order[0])] + [announced])
  {
    OpensExactly(s, event.uri, event.language, event.text, event.awaits, event.last);
    var announced := DidOpen(event.uri, 1, event.text);
    SendExactly(s.link, announced, event.last);
    if |s.documents| >= MAX_OPEN_DOCUMENTS {
      SendExactly(s.link, DidClose(s.order[0]), event.awaits(0));
      SendExactly(Send(s.link, DidClose(s.order[0]), event.awaits(0)).0, announced, event.last);
    }
  }
}
