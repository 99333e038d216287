/** Whole runs of the Filelink provider: which files are forgotten, which deletions send a request, and runs
    that show both. */
module FilelinkHistory {
  import opened Text
  import opened Filelink

  // ---------------------------------------------------------------------------------------------
  // What has happened so far.
  // ---------------------------------------------------------------------------------------------

  /** The attachments whose mapping was stored, those whose mapping a handler removed, those for which the server
      refused a deletion, those whose file it deleted, and the files whose upload ended without an answer that names a
      link. */
  datatype Past = Past(
    saved: set<(string, string)>,
    removed: set<(string, string)>,
    refused: set<(string, string)>,
    purged: set<(string, string)>,
    lost: set<string>)

  const NOTHING := Past({}, {}, {}, {}, {})

  function Remember(p: Past, s: State, e: Event): Past {
    match e
    case SaveMapping(a, i) =>
      if Phase(s, a, i).Some? && Phase(s, a, i).value.Saving? then p.(saved := p.saved + {(a, i)}) else p
    case RemoveMapping(h) =>
      (match DeletionOf(s, h)
       case Removing(a, i) => p.(removed := p.removed + {(a, i)})
       case _ => p)
    case Refused(h) =>
      (match DeletionOf(s, h)
       case Purging(a, i, _) => p.(refused := p.refused + {(a, i)})
       case _ => p)
    case Purged(h) => Deleted(p, DeletionOf(s, h))
    case PurgeUnheard(h) => Deleted(p, DeletionOf(s, h))
    case UploadFails(a, i) =>
      if Phase(s, a, i).Some? && Phase(s, a, i).value.Waiting? then p.(lost := p.lost + {Phase(s, a, i).value.file})
      else p
    case UploadAnswered(a, i, hasUrl, _) =>
      if !hasUrl && Phase(s, a, i).Some? && Phase(s, a, i).value.Waiting?
      then p.(lost := p.lost + {Phase(s, a, i).value.file}) else p
    case _ => p
  }

  /** The server deletes the file that the handler asked it to delete. */
  function Deleted(p: Past, d: Deletion): Past {
    if d.Purging? then p.(purged := p.purged + {(d.account, d.attachment)}) else p
  }

  function History(events: seq<Event>): Past {
    if events == [] then NOTHING
    else var front := events[..|events| - 1]; Remember(History(front), Run(INITIAL, front), events[|events| - 1])
  }

  /** The server's answer names the file it stored. */
  ghost predicate Names(s: State, e: Event) {
    e.UploadAnswered? && e.hasUrl && Phase(s, e.account, e.attachment).Some?
      && Phase(s, e.account, e.attachment).value.Waiting?
    ==> e.answer == Some(Phase(s, e.account, e.attachment).value.file)
  }

  /** A run on numbered attachments with a server that names the files it stores.  Answers may be lost and
      deletions refused. */
  ghost predicate Honest(events: seq<Event>)
    decreases |events|
  {
    events == [] ||
    (Honest(events[..|events| - 1]) && Numbered(events[|events| - 1])
     && Names(Run(INITIAL, events[..|events| - 1]), events[|events| - 1]))
  }

  lemma {:induction false} HonestIsFaithful(events: seq<Event>)
    requires Honest(events)
    ensures Faithful(Run(INITIAL, events))
    decreases |events|
  {
    if events != [] {
      HonestIsFaithful(events[..|events| - 1]);
      FaithfulStep(Run(INITIAL, events[..|events| - 1]), events[|events| - 1]);
    }
  }

  // ---------------------------------------------------------------------------------------------
  // What every step keeps.
  // ---------------------------------------------------------------------------------------------

  /** The upload has an answer. */
  ghost predicate Answered(s: State, a: string, i: string) {
    (a, i) in s.uploads && (s.uploads[(a, i)].Saving? || s.uploads[(a, i)].UploadOver?)
  }

  ghost predicate InFlight(s: State, f: string) {
    exists p :: p in s.uploads && s.uploads[p] == Waiting(f)
  }

  ghost predicate AnsweredBySome(s: State, f: string) { exists a, i :: (a, i, f) in s.answered }

  ghost predicate Over(s: State, a: string, i: string) { (a, i) in s.uploads && s.uploads[(a, i)].UploadOver? }

  /** An answer names a stored file, which is the answer to no other upload. */
  ghost predicate OwnAnswers(s: State) {
    && s.live <= s.known
    && (forall a, i, f | (a, i, f) in s.answered :: f in s.known && Answered(s, a, i))
    && (forall a, i, f, g | (a, i, f) in s.answered && (a, i, g) in s.answered :: f == g)
    && (forall a, i, b, j, f | (a, i, f) in s.answered && (b, j, f) in s.answered :: a == b && i == j)
  }

  /** The file an upload waits for is its own. */
  ghost predicate OwnWaits(s: State) {
    && (forall p | p in s.uploads && s.uploads[p].Waiting? ::
          s.uploads[p].file in s.known && s.uploads[p].file in s.live)
    && (forall p, a, i | p in s.uploads && s.uploads[p].Waiting? :: (a, i, s.uploads[p].file) !in s.answered)
    && (forall p, q | p in s.uploads && q in s.uploads && s.uploads[p].Waiting? && s.uploads[q] == s.uploads[p] ::
          p == q)
  }

  ghost predicate Owned(s: State) { OwnAnswers(s) && OwnWaits(s) }

  /** A mapping, and a deletion that has read one, come after the upload. */
  ghost predicate Ordered(s: State) {
    && (forall a, i | AttachmentId(i) && UploadKey(a, i) in s.store :: Over(s, a, i))
    && (forall h | h in s.deletions && (s.deletions[h].Purging? || s.deletions[h].Removing?) ::
          Over(s, s.deletions[h].account, s.deletions[h].attachment))
  }

  /** The attachment's file is gone, unless a deletion was refused. */
  ghost predicate GoneOrRefused(s: State, p: Past, a: string, i: string) {
    (a, i) in p.refused || forall f | (a, i, f) in s.answered :: f !in s.live
  }

  ghost predicate Mapped(s: State, p: Past) {
    && (forall q | q in p.saved :: Over(s, q.0, q.1))
    && (forall a, i, f | (a, i, f) in s.answered && Over(s, a, i) :: (a, i) in p.saved)
    && (forall a, i | AttachmentId(i) :: UploadKey(a, i) in s.store <==> (a, i) in p.saved && (a, i) !in p.removed)
  }

  ghost predicate Removals(s: State, p: Past) {
    && (forall q | q in p.removed :: Over(s, q.0, q.1) && GoneOrRefused(s, p, q.0, q.1))
    && (forall h | h in s.deletions && s.deletions[h].Removing? ::
          GoneOrRefused(s, p, s.deletions[h].account, s.deletions[h].attachment))
  }

  ghost predicate Losses(s: State, p: Past) {
    && (forall f | f in p.lost :: f in s.live && !AnsweredBySome(s, f) && !InFlight(s, f))
    && (forall f | f in s.live :: f in p.lost || InFlight(s, f) || AnsweredBySome(s, f))
  }

  /** The file of an answered upload is gone exactly when the server deleted it on request. */
  ghost predicate Deletions(s: State, p: Past) {
    && (forall q | q in p.purged :: Over(s, q.0, q.1))
    && (forall a, i, f | (a, i, f) in s.answered :: f !in s.live <==> (a, i) in p.purged)
  }

  lemma AnswersStep(s: State, e: Event)
    requires Owned(s) && Names(s, e)
    ensures OwnAnswers(Apply(s, e))
  {
    hide UploadKey, ConfigKey;
    match e
    case UploadAnswered(a, i, _, _) =>
    case _ =>
      assert Apply(s, e).answered == s.answered;
      forall a, i | Answered(s, a, i) ensures Answered(Apply(s, e), a, i) { AnsweredStays(s, e, a, i); }
  }

  lemma AnsweredStays(s: State, e: Event, a: string, i: string)
    requires Answered(s, a, i)
    ensures Answered(Apply(s, e), a, i)
  {
    hide UploadKey, ConfigKey;
  }

  lemma WaitsStep(s: State, e: Event)
    requires Owned(s) && Faithful(s) && Names(s, e)
    ensures OwnWaits(Apply(s, e))
  {
    hide UploadKey, ConfigKey, FaithfulStore, FaithfulUploads;
  }

  lemma OwnedStep(s: State, e: Event)
    requires Owned(s) && Faithful(s) && Names(s, e)
    ensures Owned(Apply(s, e))
  {
    hide *;
    AnswersStep(s, e);
    WaitsStep(s, e);
    OwnedParts(Apply(s, e));
    OwnedParts(s);
  }

  lemma OwnedParts(s: State)
    ensures Owned(s) <==> OwnAnswers(s) && OwnWaits(s)
  {
    hide OwnAnswers, OwnWaits;
  }

  lemma OrderedStep(s: State, e: Event)
    requires Ordered(s) && Faithful(s) && Numbered(e)
    ensures Ordered(Apply(s, e))
  {
    hide ConfigKey, AttachmentId, UploadKey, Apply, Over, FaithfulStore, FaithfulUploads;
    var t := Apply(s, e);
    forall a, i | AttachmentId(i) && UploadKey(a, i) in t.store ensures Over(t, a, i) { StoredIsOver(s, e, a, i); }
    forall h | h in t.deletions && (t.deletions[h].Purging? || t.deletions[h].Removing?)
      ensures Over(t, t.deletions[h].account, t.deletions[h].attachment)
    {
      ReadIsOver(s, e, h);
    }
  }

  lemma StoredIsOver(s: State, e: Event, a: string, i: string)
    requires Ordered(s) && Faithful(s) && AttachmentId(i) && UploadKey(a, i) in Apply(s, e).store
    ensures Over(Apply(s, e), a, i)
  {
    hide ConfigKey, AttachmentId, UploadKey, FaithfulStore, FaithfulDeletions;
    match e
    case SaveMapping(b, j) =>
      if (b, j) in s.uploads {
        assert AttachmentId((b, j).1);
        KeysDiffer(a, i, b, j);
      }
    case AccountSaved(b, _, _) => KeysDiffer(a, i, b, i);
    case _ =>
  }

  lemma ReadIsOver(s: State, e: Event, h: nat)
    requires Ordered(s) && Faithful(s)
    requires DeletionOf(Apply(s, e), h).Purging? || DeletionOf(Apply(s, e), h).Removing?
    ensures var d := DeletionOf(Apply(s, e), h); Over(Apply(s, e), d.account, d.attachment)
  {
    hide ConfigKey, AttachmentId, UploadKey, FaithfulUploads;
    var d := DeletionOf(s, h);
    if d.LookingUp? { assert AttachmentId(d.attachment); }
  }

  lemma MappedStep(s: State, p: Past, e: Event)
    requires Mapped(s, p) && Owned(s) && Ordered(s) && Faithful(s) && Removals(s, p) && Numbered(e)
    ensures Mapped(Apply(s, e), Remember(p, s, e))
  {
    hide ConfigKey, AttachmentId, UploadKey, Owned, Ordered, Faithful, Removals, Apply, Remember, Over;
    var t, r := Apply(s, e), Remember(p, s, e);
    SavedStep(s, p, e);
    forall a, i | AttachmentId(i) ensures UploadKey(a, i) in t.store <==> (a, i) in r.saved && (a, i) !in r.removed {
      StoredStep(s, p, e, a, i);
    }
  }

  lemma SavedStep(s: State, p: Past, e: Event)
    requires Mapped(s, p) && Owned(s)
    ensures var t, r := Apply(s, e), Remember(p, s, e);
      && (forall q | q in r.saved :: Over(t, q.0, q.1))
      && (forall a, i, f | (a, i, f) in t.answered && Over(t, a, i) :: (a, i) in r.saved)
  {
    hide ConfigKey, AttachmentId, UploadKey, OwnWaits;
    var t, r := Apply(s, e), Remember(p, s, e);
    forall q | q in r.saved ensures Over(t, q.0, q.1) {
      if q in p.saved { OverStays(s, e, q.0, q.1); }
    }
    forall a, i, f | (a, i, f) in t.answered && Over(t, a, i) ensures (a, i) in r.saved {
      AnsweredIsSaved(s, p, e, a, i, f);
    }
  }

  lemma AnsweredIsSaved(s: State, p: Past, e: Event, a: string, i: string, f: string)
    requires Mapped(s, p) && Owned(s) && (a, i, f) in Apply(s, e).answered && Over(Apply(s, e), a, i)
    ensures (a, i) in Remember(p, s, e).saved
  {
    hide ConfigKey, AttachmentId, UploadKey, OwnWaits;
    assert (a, i, f) in s.answered && Over(s, a, i) ==> (a, i) in p.saved;
    assert (a, i, f) in s.answered ==> Answered(s, a, i);
  }

  lemma StoredStep(s: State, p: Past, e: Event, a: string, i: string)
    requires Mapped(s, p) && Owned(s) && Ordered(s) && Faithful(s) && Removals(s, p) && AttachmentId(i)
    ensures var t, r := Apply(s, e), Remember(p, s, e);
      UploadKey(a, i) in t.store <==> (a, i) in r.saved && (a, i) !in r.removed
  {
    hide ConfigKey, AttachmentId, UploadKey, OwnWaits, OwnAnswers, GoneOrRefused;
    assert UploadKey(a, i) in s.store <==> (a, i) in p.saved && (a, i) !in p.removed;
    assert (a, i) in p.removed ==> Over(s, (a, i).0, (a, i).1);
    match e
    case SaveMapping(b, j) =>
      if (b, j) in s.uploads {
        assert AttachmentId((b, j).1);
        KeysDiffer(a, i, b, j);
      }
    case RemoveMapping(h) =>
      if DeletionOf(s, h).Removing? { KeysDiffer(a, i, s.deletions[h].account, s.deletions[h].attachment); }
    case AccountSaved(b, _, _) => KeysDiffer(a, i, b, i);
    case AccountDeleted(b) => KeysDiffer(a, i, b, i);
    case _ =>
  }

  lemma OverStays(s: State, e: Event, a: string, i: string)
    requires Over(s, a, i)
    ensures Over(Apply(s, e), a, i)
  {
    hide UploadKey, ConfigKey;
  }

  /** The file of a finished upload does not come back. */
  lemma GoneStays(s: State, p: Past, e: Event, a: string, i: string)
    requires Owned(s) && GoneOrRefused(s, p, a, i) && Over(s, a, i) && Names(s, e)
    ensures GoneOrRefused(Apply(s, e), Remember(p, s, e), a, i)
  {
    hide UploadKey, ConfigKey, OwnWaits;
    var t, r := Apply(s, e), Remember(p, s, e);
    assert p.refused <= r.refused;
    if (a, i) !in p.refused {
      forall f | (a, i, f) in t.answered ensures f !in t.live {
        assert (a, i, f) in s.answered ==> f !in s.live && f in s.known;
      }
    }
  }

  lemma RemovalsStep(s: State, p: Past, e: Event)
    requires Removals(s, p) && Owned(s) && Ordered(s) && Faithful(s) && Names(s, e)
    ensures Removals(Apply(s, e), Remember(p, s, e))
  {
    hide UploadKey, ConfigKey, GoneOrRefused, OwnAnswers, OwnWaits, FaithfulStore, FaithfulUploads;
    var t, r := Apply(s, e), Remember(p, s, e);
    forall q | q in r.removed ensures Over(t, q.0, q.1) && GoneOrRefused(t, r, q.0, q.1) {
      if q in p.removed {
        OverStays(s, e, q.0, q.1);
        GoneStays(s, p, e, q.0, q.1);
      } else {
        var d := DeletionOf(s, e.handler);
        assert d.Removing? && q == (d.account, d.attachment);
        OverStays(s, e, q.0, q.1);
        GoneStays(s, p, e, q.0, q.1);
      }
    }
    forall h | h in t.deletions && t.deletions[h].Removing?
      ensures GoneOrRefused(t, r, t.deletions[h].account, t.deletions[h].attachment)
    {
      RemovingStep(s, p, e, h);
    }
  }

  lemma RemovingStep(s: State, p: Past, e: Event, h: nat)
    requires Removals(s, p) && Owned(s) && Ordered(s) && Faithful(s) && Names(s, e)
    requires DeletionOf(Apply(s, e), h).Removing?
    ensures var d := DeletionOf(Apply(s, e), h); GoneOrRefused(Apply(s, e), Remember(p, s, e), d.account, d.attachment)
  {
    hide UploadKey, ConfigKey, OwnWaits, FaithfulStore, FaithfulUploads;
    var d := DeletionOf(s, h);
    if d.Removing? {
      GoneStays(s, p, e, d.account, d.attachment);
    } else {
      assert d.Purging? && (d.account, d.attachment, d.name) in s.answered;
    }
  }

  lemma LossesStep(s: State, p: Past, e: Event)
    requires Losses(s, p) && Owned(s) && Faithful(s) && Names(s, e)
    ensures Losses(Apply(s, e), Remember(p, s, e))
  {
    hide UploadKey, ConfigKey, FaithfulStore, FaithfulUploads, InFlight, AnsweredBySome;
    var t, r := Apply(s, e), Remember(p, s, e);
    forall f | f in r.lost ensures f in t.live && !AnsweredBySome(t, f) && !InFlight(t, f) { LostStays(s, p, e, f); }
    forall f | f in t.live ensures f in r.lost || InFlight(t, f) || AnsweredBySome(t, f) { LiveIsKnown(s, p, e, f); }
  }

  lemma LostStays(s: State, p: Past, e: Event, f: string)
    requires Losses(s, p) && Owned(s) && Faithful(s) && Names(s, e) && f in Remember(p, s, e).lost
    ensures f in Apply(s, e).live && !AnsweredBySome(Apply(s, e), f) && !InFlight(Apply(s, e), f)
  {
    hide UploadKey, ConfigKey, FaithfulStore, FaithfulUploads;
    assert f in p.lost ==> f in s.live && f in s.known;
    match e
    case Purged(h) =>
      var d := DeletionOf(s, h);
      if d.Purging? { assert (d.account, d.attachment, d.name) in s.answered; }
    case PurgeUnheard(h) =>
      var d := DeletionOf(s, h);
      if d.Purging? { assert (d.account, d.attachment, d.name) in s.answered; }
    case UploadAnswered(a, i, _, _) =>
      if Phase(s, a, i).Some? && Phase(s, a, i).value.Waiting? {
        var q := (a, i);
        assert s.uploads[q] == Waiting(s.uploads[q].file);
        assert s.uploads[q].file in s.live;
      }
    case UploadFails(a, i) =>
      if Phase(s, a, i).Some? && Phase(s, a, i).value.Waiting? {
        var q := (a, i);
        assert s.uploads[q].file in s.live;
      }
    case _ =>
  }

  lemma LiveIsKnown(s: State, p: Past, e: Event, f: string)
    requires Losses(s, p) && Owned(s) && Faithful(s) && Names(s, e) && f in Apply(s, e).live
    ensures f in Remember(p, s, e).lost || InFlight(Apply(s, e), f) || AnsweredBySome(Apply(s, e), f)
  {
    hide UploadKey, ConfigKey, FaithfulStore, FaithfulUploads;
    var t := Apply(s, e);
    if f in s.live && AnsweredBySome(s, f) {
      var a, i :| (a, i, f) in s.answered;
      assert (a, i, f) in t.answered;
    } else if f in s.live && InFlight(s, f) {
      var q :| q in s.uploads && s.uploads[q] == Waiting(f);
      if t.uploads[q] != Waiting(f) {
        assert e.UploadFails? || e.UploadAnswered?;
        assert q == (e.account, e.attachment);
        if e.UploadAnswered? && e.hasUrl { assert (e.account, e.attachment, f) in t.answered; }
      }
    } else if f !in s.live {
      assert t.uploads[(e.account, e.attachment)] == Waiting(f);
    }
  }

  lemma DeletionsKept(s: State, p: Past, e: Event)
    requires Deletions(s, p) && Owned(s) && Ordered(s) && Faithful(s) && Names(s, e)
    ensures Deletions(Apply(s, e), Remember(p, s, e))
  {
    hide UploadKey, ConfigKey, FaithfulStore, FaithfulUploads, Over, Ordered, OwnAnswers, OwnWaits;
    var t, r := Apply(s, e), Remember(p, s, e);
    forall q | q in r.purged ensures Over(t, q.0, q.1) { PurgedIsOver(s, p, e, q.0, q.1); }
    forall a, i, f | (a, i, f) in t.answered ensures f !in t.live <==> (a, i) in r.purged { GoneIff(s, p, e, a, i, f); }
  }

  lemma PurgedIsOver(s: State, p: Past, e: Event, a: string, i: string)
    requires Deletions(s, p) && Ordered(s) && (a, i) in Remember(p, s, e).purged
    ensures Over(Apply(s, e), a, i)
  {
    hide UploadKey, ConfigKey;
    if (a, i) in p.purged {
      var q := (a, i);
      assert Over(s, q.0, q.1);
    } else {
      assert DeletionOf(s, e.handler).Purging?;
    }
    OverStays(s, e, a, i);
  }

  lemma GoneIff(s: State, p: Past, e: Event, a: string, i: string, f: string)
    requires Deletions(s, p) && Owned(s) && Ordered(s) && Faithful(s) && Names(s, e)
    requires (a, i, f) in Apply(s, e).answered
    ensures f !in Apply(s, e).live <==> (a, i) in Remember(p, s, e).purged
  {
    hide UploadKey, ConfigKey, FaithfulStore, FaithfulUploads;
    if (a, i, f) in s.answered {
      if e.Purged? || e.PurgeUnheard? {
        var d := DeletionOf(s, e.handler);
        if d.Purging? { assert (d.account, d.attachment, d.name) in s.answered; }
      } else if e.ServerStores? {
        assert f in s.known;
      }
    } else {
      var q := (a, i);
      assert e.UploadAnswered? && s.uploads[q] == Waiting(f);
      assert s.uploads[q].file in s.live;
      assert q in p.purged ==> Over(s, q.0, q.1);
    }
  }

  ghost predicate Kept(s: State, p: Past) {
    Faithful(s) && Owned(s) && Ordered(s) && Mapped(s, p) && Removals(s, p) && Losses(s, p) && Deletions(s, p)
  }

  lemma KeptStep(s: State, p: Past, e: Event)
    requires Kept(s, p) && Numbered(e) && Names(s, e)
    ensures Kept(Apply(s, e), Remember(p, s, e))
  {
    hide Apply, Remember, Faithful, Owned, Ordered, Mapped, Removals, Losses, Deletions, Numbered, Names;
    FaithfulStep(s, e);
    OwnedStep(s, e);
    OrderedStep(s, e);
    MappedStep(s, p, e);
    RemovalsStep(s, p, e);
    LossesStep(s, p, e);
    DeletionsKept(s, p, e);
  }

  lemma {:induction false} EveryRunKeeps(events: seq<Event>)
    requires Honest(events)
    ensures Kept(Run(INITIAL, events), History(events))
    decreases |events|
  {
    if events != [] {
      hide Apply, Remember, Kept, Names, Numbered;
      EveryRunKeeps(events[..|events| - 1]);
      KeptStep(Run(INITIAL, events[..|events| - 1]), History(events[..|events| - 1]), events[|events| - 1]);
    }
  }

  // ---------------------------------------------------------------------------------------------
  // Which files are forgotten.
  // ---------------------------------------------------------------------------------------------

  /** The provider has the file's name: as the stored mapping, or in the handler about to store it. */
  ghost predicate Held(s: State, a: string, i: string, f: string) {
    || ((a, i) in s.uploads && s.uploads[(a, i)] == Saving(f))
    || (UploadKey(a, i) in s.store && s.store[UploadKey(a, i)] == File(f))
  }

  ghost predicate AllHeld(s: State) {
    forall a, i, f | (a, i, f) in s.answered && f in s.live :: Held(s, a, i, f)
  }

  /** The server has the file, no upload waits for it and no attachment holds its name. */
  ghost predicate Forgotten(s: State, f: string) {
    f in s.live && !InFlight(s, f) && forall a, i | AttachmentId(i) :: !Held(s, a, i, f)
  }

  lemma HeldUnless(s: State, p: Past, a: string, i: string, f: string)
    requires Kept(s, p) && (a, i, f) in s.answered
    ensures AttachmentId(i) && (Held(s, a, i, f) <==> (a, i) !in p.removed)
  {
    hide UploadKey, AttachmentId, OwnWaits, GoneOrRefused, Losses, FaithfulDeletions, Ordered;
    assert Answered(s, a, i);
    assert AttachmentId((a, i).1);
    assert (a, i) in p.removed ==> Over(s, (a, i).0, (a, i).1);
    assert UploadKey(a, i) in s.store <==> (a, i) in p.saved && (a, i) !in p.removed;
  }

  lemma HeldIsAnswered(s: State, p: Past, a: string, i: string, f: string)
    requires Kept(s, p) && AttachmentId(i) && Held(s, a, i, f)
    ensures (a, i, f) in s.answered
  {
    hide UploadKey, AttachmentId, OwnWaits, OwnAnswers, Ordered, Mapped, Removals, Losses, FaithfulDeletions;
    var q := (a, i);
    assert q in s.uploads && s.uploads[q].Saving? ==> (q.0, q.1, s.uploads[q].name) in s.answered;
  }

  /** In every run the provider holds the name of every live file it was told exactly as long as it has not removed
      that attachment's mapping. */
  lemma AllHeldExactly(events: seq<Event>)
    requires Honest(events)
    ensures var s := Run(INITIAL, events);
      AllHeld(s) <==> forall a, i, f | (a, i, f) in s.answered && f in s.live :: (a, i) !in History(events).removed
  {
    hide Held, Kept, Run, History, Honest;
    EveryRunKeeps(events);
    var s, p := Run(INITIAL, events), History(events);
    forall a, i, f | (a, i, f) in s.answered ensures Held(s, a, i, f) <==> (a, i) !in p.removed {
      HeldUnless(s, p, a, i, f);
    }
  }

  /** Removing a mapping leaves its file behind only after the server refused to delete it. */
  lemma RemovalNeedsRefusal(events: seq<Event>, a: string, i: string, f: string)
    requires Honest(events)
    requires (a, i) in History(events).removed && (a, i, f) in Run(INITIAL, events).answered
    ensures f in Run(INITIAL, events).live ==> (a, i) in History(events).refused
  {
    hide Run, History, Honest, Faithful, Owned, Ordered, Mapped, Losses;
    EveryRunKeeps(events);
    var q := (a, i);
    assert GoneOrRefused(Run(INITIAL, events), History(events), q.0, q.1);
  }

  /** A live file is forgotten exactly when the answer that would have named it was lost, or the mapping of its
      attachment was removed, and then a deletion had been refused. */
  lemma ForgottenExactly(events: seq<Event>, f: string)
    requires Honest(events)
    ensures var s, p := Run(INITIAL, events), History(events);
      && (Forgotten(s, f) <==> f in s.live && (f in p.lost || Stripped(s, p, f)))
      && (f in p.lost ==> Forgotten(s, f))
      && (Forgotten(s, f) && f !in p.lost ==> RefusedFor(s, p, f))
  {
    hide Run, History, Honest;
    EveryRunKeeps(events);
    ForgottenIff(Run(INITIAL, events), History(events), f);
  }

  /** The mapping of the attachment to which the server answered with this file was removed. */
  ghost predicate Stripped(s: State, p: Past, f: string) {
    exists a, i :: (a, i, f) in s.answered && (a, i) in p.removed
  }

  ghost predicate RefusedFor(s: State, p: Past, f: string) {
    exists a, i :: (a, i, f) in s.answered && (a, i) in p.removed && (a, i) in p.refused
  }

  lemma ForgottenIff(s: State, p: Past, f: string)
    requires Kept(s, p)
    ensures Forgotten(s, f) <==> f in s.live && (f in p.lost || Stripped(s, p, f))
    ensures f in p.lost ==> Forgotten(s, f)
    ensures Forgotten(s, f) && f !in p.lost ==> RefusedFor(s, p, f)
  {
    hide Held, Kept, UploadKey, AttachmentId;
    forall a, i | AttachmentId(i) && Held(s, a, i, f) ensures (a, i, f) in s.answered && (a, i) !in p.removed {
      HeldIsAnswered(s, p, a, i, f);
      HeldUnless(s, p, a, i, f);
    }
    forall a, i | (a, i, f) in s.answered && (a, i) !in p.removed ensures AttachmentId(i) && Held(s, a, i, f) {
      HeldUnless(s, p, a, i, f);
    }
    FactsOf(s, p, f);
  }

  lemma FactsOf(s: State, p: Past, f: string)
    requires Kept(s, p)
    ensures f in p.lost ==> f in s.live && !AnsweredBySome(s, f) && !InFlight(s, f)
    ensures f in s.live ==> f in p.lost || InFlight(s, f) || AnsweredBySome(s, f)
    ensures InFlight(s, f) ==> !AnsweredBySome(s, f)
    ensures forall a, i, b, j | (a, i, f) in s.answered && (b, j, f) in s.answered :: a == b && i == j
    ensures f in s.live && Stripped(s, p, f) ==> RefusedFor(s, p, f)
  {
    hide Faithful, Ordered, Mapped;
    if f in s.live && Stripped(s, p, f) {
      var a, i :| (a, i, f) in s.answered && (a, i) in p.removed;
      var q := (a, i);
      assert GoneOrRefused(s, p, q.0, q.1);
    }
  }

  /** A file whose answer was lost stays on the server in every continuation, and no request ever names it. */
  lemma {:induction false} LostForGood(events: seq<Event>, more: seq<Event>, f: string)
    requires Honest(events + more) && Honest(events) && f in History(events).lost
    ensures var s := Run(INITIAL, events + more);
      f in History(events + more).lost && f in s.live && forall a, i :: (a, i, f) !in s.purges
    decreases |more|
  {
    if more == [] {
      assert events + more == events;
      LostIsLive(events, f);
    } else {
      var front, last := more[..|more| - 1], more[|more| - 1];
      assert (events + more)[..|events + more| - 1] == events + front;
      LostForGood(events, front, f);
      LostIsLive(events + more, f);
    }
  }

  lemma LostIsLive(events: seq<Event>, f: string)
    requires Honest(events) && f in History(events).lost
    ensures var s := Run(INITIAL, events); f in s.live && forall a, i :: (a, i, f) !in s.purges
  {
    hide Run, History, Honest, Owned, Ordered, Mapped, Removals, FaithfulStore, FaithfulUploads;
    EveryRunKeeps(events);
  }

  // ---------------------------------------------------------------------------------------------
  // Which mappings lead nowhere.
  // ---------------------------------------------------------------------------------------------

  /** A stored mapping names a file that is gone exactly when the server deleted it on request and no handler has
      removed the mapping. */
  lemma StaleExactly(events: seq<Event>, a: string, i: string)
    requires Honest(events) && AttachmentId(i)
    ensures var s, p, k := Run(INITIAL, events), History(events), UploadKey(a, i);
      k in s.store && s.store[k].File? && s.store[k].id !in s.live
      <==> (a, i) in p.saved && (a, i) !in p.removed && (a, i) in p.purged
  {
    hide Run, History, Honest, UploadKey, AttachmentId, Owned, Ordered, Removals, Losses, FaithfulUploads,
      FaithfulDeletions;
    EveryRunKeeps(events);
  }

  // ---------------------------------------------------------------------------------------------
  // Which deletions send a request.
  // ---------------------------------------------------------------------------------------------

  /** The lookup of a deletion leads to a request exactly when the attachment's mapping has been stored and not
      removed, and names a file; otherwise the handler ends. */
  lemma RequestExactly(events: seq<Event>, h: nat, a: string, i: string)
    requires Honest(events) && DeletionOf(Run(INITIAL, events), h) == LookingUp(a, i)
    ensures var s, p := Run(INITIAL, events), History(events); var d := DeletionOf(Apply(s, LookUp(h)), h);
      && (d.Purging? <==> (a, i) in p.saved && (a, i) !in p.removed && (a, i, "") !in s.answered)
      && (d.Purging? ==> (a, i, d.name) in s.answered)
      && (!d.Purging? ==> d == DeletionOver && Apply(s, LookUp(h)).purges == s.purges)
  {
    hide Run, History, Honest;
    EveryRunKeeps(events);
    RequestIff(Run(INITIAL, events), History(events), h, a, i);
  }

  lemma RequestIff(s: State, p: Past, h: nat, a: string, i: string)
    requires Kept(s, p) && DeletionOf(s, h) == LookingUp(a, i)
    ensures var d := DeletionOf(Apply(s, LookUp(h)), h);
      && (d.Purging? <==> (a, i) in p.saved && (a, i) !in p.removed && (a, i, "") !in s.answered)
      && (d.Purging? ==> (a, i, d.name) in s.answered)
      && (!d.Purging? ==> d == DeletionOver && Apply(s, LookUp(h)).purges == s.purges)
  {
    hide UploadKey, AttachmentId, OwnWaits, Removals, Losses, Ordered, FaithfulUploads;
    assert AttachmentId(i);
    assert UploadKey(a, i) in s.store <==> (a, i) in p.saved && (a, i) !in p.removed;
  }

  /** The handler looks up a mapping that is stored and names this file. */
  ghost predicate Requests(events: seq<Event>, n: nat, a: string, i: string, f: string)
    requires n < |events|
  {
    var s, p := Run(INITIAL, events[..n]), History(events[..n]);
    && events[n].LookUp? && DeletionOf(s, events[n].handler) == LookingUp(a, i)
    && (a, i) in p.saved && (a, i) !in p.removed && (a, i, f) in s.answered && f != ""
  }

  /** The requests of a whole run are those of its lookups that came between the storing of the mapping and its
      removal. */
  lemma {:induction false} RequestsExactly(events: seq<Event>, a: string, i: string, f: string)
    requires Honest(events)
    ensures (a, i, f) in Run(INITIAL, events).purges <==> exists n: nat | n < |events| :: Requests(events, n, a, i, f)
    decreases |events|
  {
    if events != [] {
      hide Kept, History, Remember;
      var front := events[..|events| - 1];
      RequestsExactly(front, a, i, f);
      forall n: nat | n < |front| ensures Requests(front, n, a, i, f) <==> Requests(events, n, a, i, f) {
        assert front[..n] == events[..n];
      }
      LastRequest(events, a, i, f);
    }
  }

  lemma LastRequest(events: seq<Event>, a: string, i: string, f: string)
    requires Honest(events) && events != []
    ensures (a, i, f) in Run(INITIAL, events).purges
      <==> (a, i, f) in Run(INITIAL, events[..|events| - 1]).purges || Requests(events, |events| - 1, a, i, f)
  {
    var front, e := events[..|events| - 1], events[|events| - 1];
    assert Honest(front) && Run(INITIAL, events) == Apply(Run(INITIAL, front), e);
    hide Kept, History, Run, Honest, Apply;
    EveryRunKeeps(front);
    NewRequest(Run(INITIAL, front), History(front), e, a, i, f);
  }

  lemma NewRequest(s: State, p: Past, e: Event, a: string, i: string, f: string)
    requires Kept(s, p)
    ensures (a, i, f) in Apply(s, e).purges
      <==> (a, i, f) in s.purges
           || (e.LookUp? && DeletionOf(s, e.handler) == LookingUp(a, i)
               && (a, i) in p.saved && (a, i) !in p.removed && (a, i, f) in s.answered && f != "")
  {
    hide Kept, UploadKey, Configured;
    if e.LookUp? && DeletionOf(s, e.handler).LookingUp? {
      var d := DeletionOf(s, e.handler);
      RequestIff(s, p, e.handler, d.account, d.attachment);
      OneAnswer(s, p);
    }
  }

  lemma OneAnswer(s: State, p: Past)
    requires Kept(s, p)
    ensures forall a, i, f, g | (a, i, f) in s.answered && (a, i, g) in s.answered :: f == g
  {
    hide Faithful, Ordered, Mapped, Removals, Losses, OwnWaits;
  }

  /** A deletion whose handler has ended sends no request in any continuation. */
  lemma {:induction false} OverForGood(s: State, more: seq<Event>, h: nat)
    requires h in s.deletions && s.deletions[h] == DeletionOver
    ensures var t := Run(s, more); h in t.deletions && t.deletions[h] == DeletionOver
    decreases |more|
  {
    if more != [] {
      OverForGood(s, more[..|more| - 1], h);
    }
  }

  // ---------------------------------------------------------------------------------------------
  // Runs that forget a file.
  // ---------------------------------------------------------------------------------------------

  lemma Snoc(events: seq<Event>, e: Event)
    requires Honest(events) && Numbered(e) && Names(Run(INITIAL, events), e)
    ensures Honest(events + [e])
    ensures Run(INITIAL, events + [e]) == Apply(Run(INITIAL, events), e)
    ensures History(events + [e]) == Remember(History(events), Run(INITIAL, events), e)
  {
    assert (events + [e])[..|events|] == events;
  }

  /** A configured account uploads an attachment and the server stores the file. */
  function Uploading(a: string, i: string, f: string): seq<Event> {
    [AccountSaved(a, "u", "k")] + [StartUpload(a, i)] + [ReadConfig(a, i)] + [ServerStores(a, i, f)]
  }

  lemma UploadingRuns(a: string, i: string, f: string)
    requires AttachmentId(i)
    ensures Honest(Uploading(a, i, f)) && History(Uploading(a, i, f)) == NOTHING
    ensures Run(INITIAL, Uploading(a, i, f))
      == State(map[ConfigKey(a) := Config("u", "k")], map[(a, i) := Waiting(f)], map[], {f}, {f}, {}, {})
  {
    hide UploadKey, ConfigKey, AttachmentId;
    Snoc([], AccountSaved(a, "u", "k"));
    assert [] + [AccountSaved(a, "u", "k")] == [AccountSaved(a, "u", "k")];
    Snoc([AccountSaved(a, "u", "k")], StartUpload(a, i));
    Snoc([AccountSaved(a, "u", "k")] + [StartUpload(a, i)], ReadConfig(a, i));
    Snoc([AccountSaved(a, "u", "k")] + [StartUpload(a, i)] + [ReadConfig(a, i)], ServerStores(a, i, f));
  }

  function Saved(a: string, i: string, f: string): seq<Event> {
    Uploading(a, i, f) + [UploadAnswered(a, i, true, Some(f))] + [SaveMapping(a, i)]
  }

  lemma SavedRuns(a: string, i: string, f: string)
    requires AttachmentId(i)
    ensures Honest(Saved(a, i, f)) && History(Saved(a, i, f)) == Past({(a, i)}, {}, {}, {}, {})
    ensures Run(INITIAL, Saved(a, i, f)) == Stands(a, i, f, map[], {f}, {})
  {
    hide UploadKey, ConfigKey, AttachmentId, Uploading, Honest, History, Run;
    UploadingRuns(a, i, f);
    Snoc(Uploading(a, i, f), UploadAnswered(a, i, true, Some(f)));
    Snoc(Uploading(a, i, f) + [UploadAnswered(a, i, true, Some(f))], SaveMapping(a, i));
  }

  /** The account is configured and the mapping of the uploaded file is stored. */
  function Stands(a: string, i: string, f: string, deletions: map<nat, Deletion>, live: set<string>,
                  purges: set<(string, string, string)>): State {
    State(map[ConfigKey(a) := Config("u", "k")][UploadKey(a, i) := File(f)], map[(a, i) := UploadOver], deletions,
          live, {f}, {(a, i, f)}, purges)
  }

  /** A deletion that has asked the server for the file. */
  function AskedLate(a: string, i: string, f: string): seq<Event> {
    Saved(a, i, f) + [StartDelete(0, a, i)] + [ReadDeleteConfig(0)] + [LookUp(0)]
  }

  /** The attachment is deleted and the server refuses. */
  function RefusedRun(a: string, i: string, f: string): seq<Event> {
    AskedLate(a, i, f) + [Refused(0)] + [RemoveMapping(0)]
  }

  lemma AskedLateRuns(a: string, i: string, f: string)
    requires AttachmentId(i) && f != ""
    ensures Honest(AskedLate(a, i, f)) && History(AskedLate(a, i, f)) == Past({(a, i)}, {}, {}, {}, {})
    ensures Run(INITIAL, AskedLate(a, i, f)) == Stands(a, i, f, map[0 := Purging(a, i, f)], {f}, {(a, i, f)})
  {
    hide UploadKey, ConfigKey, AttachmentId, Saved, Honest, History, Run;
    SavedRuns(a, i, f);
    KeysDiffer(a, i, a, i);
    var asked := Saved(a, i, f) + [StartDelete(0, a, i)];
    Snoc(Saved(a, i, f), StartDelete(0, a, i));
    Snoc(asked, ReadDeleteConfig(0));
    Snoc(asked + [ReadDeleteConfig(0)], LookUp(0));
  }

  /** For every account, attachment and file name: a refused deletion makes the provider forget a live file. */
  lemma RefusalForgets(a: string, i: string, f: string)
    requires AttachmentId(i) && f != ""
    ensures Honest(RefusedRun(a, i, f)) && Forgotten(Run(INITIAL, RefusedRun(a, i, f)), f)
    ensures !AllHeld(Run(INITIAL, RefusedRun(a, i, f)))
  {
    hide UploadKey, ConfigKey, AttachmentId, AskedLate, Honest, History, Run, Forgotten, Held;
    AskedLateRuns(a, i, f);
    Snoc(AskedLate(a, i, f), Refused(0));
    Snoc(AskedLate(a, i, f) + [Refused(0)], RemoveMapping(0));
    var s, p := Run(INITIAL, RefusedRun(a, i, f)), History(RefusedRun(a, i, f));
    assert (a, i, f) in s.answered && (a, i) in p.removed && f in s.live;
    ForgottenExactly(RefusedRun(a, i, f), f);
    AllHeldExactly(RefusedRun(a, i, f));
  }

  /** For every account, attachment and file name: when the server deletes the file and its answer is lost, the mapping
      stays and leads nowhere. */
  lemma UnheardPurgeLeavesMapping(a: string, i: string, f: string)
    requires AttachmentId(i) && f != ""
    ensures var events := AskedLate(a, i, f) + [PurgeUnheard(0)]; var s := Run(INITIAL, events);
      Honest(events) && s == Stands(a, i, f, map[0 := DeletionOver], {}, {(a, i, f)})
  {
    hide UploadKey, ConfigKey, AttachmentId, AskedLate, Honest, History, Run;
    AskedLateRuns(a, i, f);
    Snoc(AskedLate(a, i, f), PurgeUnheard(0));
  }

  /** For every account, attachment and file name: a lost answer makes the provider forget a live file. */
  lemma LostAnswerForgets(a: string, i: string, f: string)
    requires AttachmentId(i)
    ensures var events := Uploading(a, i, f) + [UploadFails(a, i)];
      Honest(events) && Forgotten(Run(INITIAL, events), f)
  {
    hide UploadKey, ConfigKey, AttachmentId, Uploading, Honest, History, Run, Forgotten;
    UploadingRuns(a, i, f);
    Snoc(Uploading(a, i, f), UploadFails(a, i));
    ForgottenExactly(Uploading(a, i, f) + [UploadFails(a, i)], f);
  }

  /** A deletion asked for while the upload still waits for its answer. */
  function AskedEarly(a: string, i: string, f: string): seq<Event> {
    Uploading(a, i, f) + [StartDelete(0, a, i)] + [ReadDeleteConfig(0)] + [LookUp(0)]
  }

  function EarlyRun(a: string, i: string, f: string): seq<Event> {
    AskedEarly(a, i, f) + [UploadAnswered(a, i, true, Some(f))] + [SaveMapping(a, i)]
  }

  lemma AskedEarlyRuns(a: string, i: string, f: string)
    requires AttachmentId(i)
    ensures Honest(AskedEarly(a, i, f))
    ensures Run(INITIAL, AskedEarly(a, i, f))
      == State(map[ConfigKey(a) := Config("u", "k")], map[(a, i) := Waiting(f)], map[0 := DeletionOver], {f}, {f}, {},
               {})
  {
    hide UploadKey, ConfigKey, AttachmentId, Uploading, Honest, History, Run;
    UploadingRuns(a, i, f);
    KeysDiffer(a, i, a, i);
    var asked := Uploading(a, i, f) + [StartDelete(0, a, i)];
    Snoc(Uploading(a, i, f), StartDelete(0, a, i));
    Snoc(asked, ReadDeleteConfig(0));
    Snoc(asked + [ReadDeleteConfig(0)], LookUp(0));
  }

  /** For every account, attachment and file name: such a deletion ends without a request, for good, while the
      mapping and the file stay. */
  lemma EarlyDeletionPurgesNothing(a: string, i: string, f: string)
    requires AttachmentId(i)
    ensures var s := Run(INITIAL, EarlyRun(a, i, f));
      Honest(EarlyRun(a, i, f)) && s == Stands(a, i, f, map[0 := DeletionOver], {f}, {})
    ensures forall more :: DeletionOf(Run(Run(INITIAL, EarlyRun(a, i, f)), more), 0) == DeletionOver
  {
    hide UploadKey, ConfigKey, AttachmentId, AskedEarly, Honest, History, Run;
    AskedEarlyRuns(a, i, f);
    Snoc(AskedEarly(a, i, f), UploadAnswered(a, i, true, Some(f)));
    Snoc(AskedEarly(a, i, f) + [UploadAnswered(a, i, true, Some(f))], SaveMapping(a, i));
    forall more ensures DeletionOf(Run(Run(INITIAL, EarlyRun(a, i, f)), more), 0) == DeletionOver {
      OverForGood(Run(INITIAL, EarlyRun(a, i, f)), more, 0);
    }
  }
}
