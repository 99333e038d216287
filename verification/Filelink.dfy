/** The Filelink provider: asynchronous handlers that share one key-value store.  Between two awaits a handler
    runs alone, so every interleaving is a sequence of the segments below. */
module Filelink {
  import opened Text

  /** What `browser.storage.local` holds. */
  datatype Stored = Config(baseUrl: string, apiKey: string) | File(id: string)

  type Store = map<string, Stored>

  function ConfigKey(account: string): string { "account-" + account }

  function UploadKey(account: string, attachment: string): string { "upload-" + account + "-" + attachment }

  /** `getAccountConfig` succeeds. */
  predicate Configured(store: Store, account: string) {
    var k := ConfigKey(account);
    k in store && store[k].Config? && store[k].baseUrl != "" && store[k].apiKey != ""
  }

  // ---------------------------------------------------------------------------------------------
  // The handlers, segment by segment.
  // ---------------------------------------------------------------------------------------------

  /** Where an upload stands: before its configuration is read, before the server has the file, before the
      answer is back, before the mapping is stored, and after. */
  datatype Upload = Begun | Sending | Waiting(file: string) | Saving(name: string) | UploadOver

  /** Where a deletion stands. */
  datatype Deletion =
    | Asked(account: string, attachment: string)
    | LookingUp(account: string, attachment: string)
    | Purging(account: string, attachment: string, name: string)
    | Removing(account: string, attachment: string)
    | DeletionOver

  /** `answer` is the file id in the server's answer, if any; without it the handler takes the attachment's own
      id for the file.  A delete request is carried out, refused, carried out with its answer lost, or never arrives. */
  datatype Event =
    | StartUpload(account: string, attachment: string)
    | ReadConfig(account: string, attachment: string)
    | ServerStores(account: string, attachment: string, file: string)
    | UploadFails(account: string, attachment: string)
    | UploadAnswered(account: string, attachment: string, hasUrl: bool, answer: Option<string>)
    | SaveMapping(account: string, attachment: string)
    | StartDelete(handler: nat, account: string, attachment: string)
    | ReadDeleteConfig(handler: nat)
    | LookUp(handler: nat)
    | Purged(handler: nat)
    | Refused(handler: nat)
    | PurgeUnheard(handler: nat)
    | PurgeThrows(handler: nat)
    | RemoveMapping(handler: nat)
    | AccountDeleted(account: string)
    | AccountSaved(account: string, baseUrl: string, apiKey: string)

  /** `live` are the server's files, `known` all it ever stored, `answered` the file names the handlers took
      from its answers, and `purges` the names in delete requests. */
  datatype State = State(
    store: Store,
    uploads: map<(string, string), Upload>,
    deletions: map<nat, Deletion>,
    live: set<string>,
    known: set<string>,
    answered: set<(string, string, string)>,
    purges: set<(string, string, string)>)

  const INITIAL := State(map[], map[], map[], {}, {}, {}, {})

  function Phase(s: State, account: string, attachment: string): Option<Upload> {
    if (account, attachment) in s.uploads then Some(s.uploads[(account, attachment)]) else None
  }

  function DeletionOf(s: State, h: nat): Deletion {
    if h in s.deletions then s.deletions[h] else DeletionOver
  }

  /** The handlers' own parts and the server's answers.  An event that cannot happen changes nothing. */
  function Apply(s: State, e: Event): State {
    match e
    case StartUpload(a, i) =>
      if (a, i) in s.uploads then s else s.(uploads := s.uploads[(a, i) := Begun])
    case ReadConfig(a, i) =>
      if Phase(s, a, i) != Some(Begun) then s
      else s.(uploads := s.uploads[(a, i) := if Configured(s.store, a) then Sending else UploadOver])
    case ServerStores(a, i, f) =>
      if Phase(s, a, i) != Some(Sending) || f in s.known then s
      else s.(uploads := s.uploads[(a, i) := Waiting(f)], live := s.live + {f}, known := s.known + {f})
    case UploadFails(a, i) =>
      if Phase(s, a, i).Some? && (Phase(s, a, i).value.Sending? || Phase(s, a, i).value.Waiting?)
      then s.(uploads := s.uploads[(a, i) := UploadOver]) else s
    case UploadAnswered(a, i, hasUrl, answer) =>
      if !(Phase(s, a, i).Some? && Phase(s, a, i).value.Waiting?) then s
      else if !hasUrl then s.(uploads := s.uploads[(a, i) := UploadOver])
      else
        var name := if answer.Some? then answer.value else i;
        s.(uploads := s.uploads[(a, i) := Saving(name)], answered := s.answered + {(a, i, name)})
    case SaveMapping(a, i) =>
      if !(Phase(s, a, i).Some? && Phase(s, a, i).value.Saving?) then s
      else s.(store := s.store[UploadKey(a, i) := File(Phase(s, a, i).value.name)],
              uploads := s.uploads[(a, i) := UploadOver])
    case StartDelete(h, a, i) =>
      if h in s.deletions then s else s.(deletions := s.deletions[h := Asked(a, i)])
    case ReadDeleteConfig(h) =>
      (match DeletionOf(s, h)
       case Asked(a, i) =>
         s.(deletions := s.deletions[h := if Configured(s.store, a) then LookingUp(a, i) else DeletionOver])
       case _ => s)
    case LookUp(h) =>
      (match DeletionOf(s, h)
       case LookingUp(a, i) =>
         var k := UploadKey(a, i);
         if k in s.store && s.store[k].File? && s.store[k].id != ""
         then s.(deletions := s.deletions[h := Purging(a, i, s.store[k].id)],
                 purges := s.purges + {(a, i, s.store[k].id)})
         else s.(deletions := s.deletions[h := DeletionOver])
       case _ => s)
    case Purged(h) =>
      (match DeletionOf(s, h)
       case Purging(a, i, name) => s.(deletions := s.deletions[h := Removing(a, i)], live := s.live - {name})
       case _ => s)
    case Refused(h) =>
      (match DeletionOf(s, h)
       case Purging(a, i, name) => s.(deletions := s.deletions[h := Removing(a, i)])
       case _ => s)
    case PurgeUnheard(h) =>
      (match DeletionOf(s, h)
       case Purging(a, i, name) => s.(deletions := s.deletions[h := DeletionOver], live := s.live - {name})
       case _ => s)
    case PurgeThrows(h) =>
      (match DeletionOf(s, h)
       case Purging(a, i, name) => s.(deletions := s.deletions[h := DeletionOver])
       case _ => s)
    case RemoveMapping(h) =>
      (match DeletionOf(s, h)
       case Removing(a, i) => s.(store := s.store - {UploadKey(a, i)}, deletions := s.deletions[h := DeletionOver])
       case _ => s)
    case AccountDeleted(a) => s.(store := s.store - {ConfigKey(a)})
    case AccountSaved(a, baseUrl, apiKey) => s.(store := s.store[ConfigKey(a) := Config(baseUrl, apiKey)])
  }

  function Run(s: State, events: seq<Event>): State {
    if events == [] then s else Apply(Run(s, events[..|events| - 1]), events[|events| - 1])
  }

  // ---------------------------------------------------------------------------------------------
  // Keys.
  // ---------------------------------------------------------------------------------------------

  /** Thunderbird numbers attachments. */
  ghost predicate AttachmentId(i: string) { i != "" && All(Digit, i) }

  /** Two attachments never share a key, whatever the account ids look like: the attachment's number is what
      follows the last hyphen. */
  lemma KeysDiffer(a: string, i: string, b: string, j: string)
    requires AttachmentId(i) && AttachmentId(j)
    ensures UploadKey(a, i) == "upload-" + a + "-" + i && ConfigKey(a) == "account-" + a
    ensures UploadKey(a, i) == UploadKey(b, j) <==> a == b && i == j
    ensures UploadKey(a, i) != ConfigKey(b)
  {
    var k, l := UploadKey(a, i), UploadKey(b, j);
    assert k[0] == 'u' && ConfigKey(b)[0] == 'a';
    HyphenAt(a, i);
    HyphenAt(b, j);
    if k == l {
      assert |a| == |b|;
      assert a == k[7..7 + |a|] == b;
      assert i == k[8 + |a|..] == j;
    }
  }

  lemma HyphenAt(a: string, i: string)
    requires AttachmentId(i)
    ensures var k := UploadKey(a, i); var n := 7 + |a|;
      n < |k| && k[n] == '-' && forall m: nat | n < m < |k| :: k[m] != '-'
  {
    var k := UploadKey(a, i);
    assert forall m: nat | 8 + |a| <= m < |k| :: k[m] == i[m - 8 - |a|];
  }

  // ---------------------------------------------------------------------------------------------
  // Which uploads are sent.
  // ---------------------------------------------------------------------------------------------

  /** Event `n` saves the account with an address and a key, and no later event saves or deletes it. */
  ghost predicate SavedLast(events: seq<Event>, account: string, n: nat) {
    && n < |events| && events[n].AccountSaved? && events[n].account == account
    && events[n].baseUrl != "" && events[n].apiKey != ""
    && forall m: nat | n < m < |events| ::
         (events[m].AccountSaved? || events[m].AccountDeleted?) ==> events[m].account != account
  }

  lemma ConfigKeysDiffer(a: string, b: string, i: string)
    ensures ConfigKey(a) == ConfigKey(b) <==> a == b
    ensures UploadKey(b, i) != ConfigKey(a)
  {
    assert ConfigKey(a)[8..] == a && ConfigKey(b)[8..] == b;
    assert UploadKey(b, i)[0] == 'u' && ConfigKey(a)[0] == 'a';
  }

  lemma ConfiguredStep(s: State, e: Event, a: string)
    ensures Configured(Apply(s, e).store, a)
       <==> if e.AccountSaved? && e.account == a then e.baseUrl != "" && e.apiKey != ""
            else !(e.AccountDeleted? && e.account == a) && Configured(s.store, a)
  {
    match e
    case SaveMapping(b, i) => ConfigKeysDiffer(a, b, i);
    case RemoveMapping(h) =>
      if DeletionOf(s, h).Removing? { ConfigKeysDiffer(a, DeletionOf(s, h).account, DeletionOf(s, h).attachment); }
    case AccountDeleted(b) => ConfigKeysDiffer(a, b, "");
    case AccountSaved(b, _, _) => ConfigKeysDiffer(a, b, "");
    case _ =>
  }

  lemma {:induction false} ConfiguredExactly(events: seq<Event>, a: string)
    ensures Configured(Run(INITIAL, events).store, a) <==> exists n: nat :: SavedLast(events, a, n)
    decreases |events|
  {
    if events != [] {
      var l := |events| - 1;
      var front, last := events[..l], events[l];
      ConfiguredExactly(front, a);
      ConfiguredStep(Run(INITIAL, front), last, a);
      hide Apply, Configured;
      assert forall m: nat | m < l :: front[m] == events[m];
      if last.AccountSaved? && last.account == a {
        assert SavedLast(events, a, l) <==> last.baseUrl != "" && last.apiKey != "";
      }
      forall n: nat ensures n < l && SavedLast(events, a, n) ==> SavedLast(front, a, n) {}
      forall n: nat | SavedLast(front, a, n) && !((last.AccountSaved? || last.AccountDeleted?) && last.account == a)
        ensures SavedLast(events, a, n)
      {
      }
    }
  }

  /** Over every run: an upload goes on to be sent exactly when the last thing that happened to its account was that
      it was saved with an address and a key. */
  lemma UploadIsSentExactly(events: seq<Event>, a: string, i: string)
    requires Phase(Run(INITIAL, events), a, i) == Some(Begun)
    ensures Phase(Run(INITIAL, events + [ReadConfig(a, i)]), a, i)
         == Some(if exists n: nat :: SavedLast(events, a, n) then Sending else UploadOver)
  {
    ConfiguredExactly(events, a);
    assert (events + [ReadConfig(a, i)])[..|events|] == events;
  }

  // ---------------------------------------------------------------------------------------------
  // Every mapping names the file returned for its own attachment.
  // ---------------------------------------------------------------------------------------------

  ghost predicate Numbered(e: Event) {
    match e
    case StartUpload(_, i) => AttachmentId(i)
    case StartDelete(_, _, i) => AttachmentId(i)
    case _ => true
  }

  ghost predicate FaithfulStore(s: State) {
    forall a, i | AttachmentId(i) && UploadKey(a, i) in s.store ::
      s.store[UploadKey(a, i)].File? && (a, i, s.store[UploadKey(a, i)].id) in s.answered
  }

  ghost predicate FaithfulUploads(s: State) {
    forall p | p in s.uploads ::
      AttachmentId(p.1) && (s.uploads[p].Saving? ==> (p.0, p.1, s.uploads[p].name) in s.answered)
  }

  ghost predicate FaithfulDeletions(s: State) {
    && s.purges <= s.answered
    && forall h | h in s.deletions && s.deletions[h] != DeletionOver ::
         var d := s.deletions[h];
         AttachmentId(d.attachment) && (d.Purging? ==> (d.account, d.attachment, d.name) in s.answered)
  }

  ghost predicate Faithful(s: State) { FaithfulStore(s) && FaithfulUploads(s) && FaithfulDeletions(s) }

  lemma StoreStep(s: State, e: Event, a: string, i: string)
    requires Faithful(s) && AttachmentId(i) && UploadKey(a, i) in Apply(s, e).store
    ensures var t := Apply(s, e); var k := UploadKey(a, i); t.store[k].File? && (a, i, t.store[k].id) in t.answered
  {
    hide UploadKey, ConfigKey, AttachmentId;
    var k := UploadKey(a, i);
    assert k in s.store ==> s.store[k].File? && (a, i, s.store[k].id) in s.answered;
    match e
    case SaveMapping(b, j) =>
      if (b, j) in s.uploads {
        assert AttachmentId((b, j).1);
        KeysDiffer(a, i, b, j);
      }
    case AccountSaved(b, _, _) => KeysDiffer(a, i, b, i);
    case _ =>
  }

  lemma UploadsStep(s: State, e: Event)
    requires Faithful(s) && Numbered(e)
    ensures FaithfulUploads(Apply(s, e))
  {
    hide UploadKey, ConfigKey, AttachmentId, FaithfulStore, FaithfulDeletions;
  }

  lemma DeletionsStep(s: State, e: Event)
    requires Faithful(s) && Numbered(e)
    ensures FaithfulDeletions(Apply(s, e))
  {
    hide UploadKey, ConfigKey, AttachmentId, FaithfulUploads;
  }

  lemma FaithfulStep(s: State, e: Event)
    requires Faithful(s) && Numbered(e)
    ensures Faithful(Apply(s, e))
  {
    hide Apply, AttachmentId, UploadKey;
    var t := Apply(s, e);
    forall a, i | AttachmentId(i) && UploadKey(a, i) in t.store
      ensures t.store[UploadKey(a, i)].File? && (a, i, t.store[UploadKey(a, i)].id) in t.answered
    {
      StoreStep(s, e, a, i);
    }
    UploadsStep(s, e);
    DeletionsStep(s, e);
  }

  /** Under every interleaving, each stored mapping is a file name that an upload of the same account and
      attachment received, and every delete request carries such a name. */
  lemma {:induction false} MappingsAreFaithful(events: seq<Event>)
    requires forall e | e in events :: Numbered(e)
    ensures Faithful(Run(INITIAL, events))
    decreases |events|
  {
    if events != [] {
      var front, last := events[..|events| - 1], events[|events| - 1];
      assert forall e | e in front :: e in events;
      MappingsAreFaithful(front);
      FaithfulStep(Run(INITIAL, front), last);
    }
  }

  // ---------------------------------------------------------------------------------------------
  // The handlers as code that updates the store.
  // ---------------------------------------------------------------------------------------------

  class Extension {
    var store: Store
    var uploads: map<(string, string), Upload>
    var deletions: map<nat, Deletion>
    ghost var live: set<string>
    ghost var known: set<string>
    ghost var answered: set<(string, string, string)>
    ghost var purges: set<(string, string, string)>

    ghost function View(): State
      reads this
    {
      State(store, uploads, deletions, live, known, answered, purges)
    }

    constructor ()
      ensures View() == INITIAL
    {
      store, uploads, deletions := map[], map[], map[];
      live, known, answered, purges := {}, {}, {}, {};
    }

    /** The start of `onFileUpload`, up to the request. */
    method ReadConfig(a: string, i: string)
      requires (a, i) in uploads && uploads[(a, i)] == Begun
      modifies this
      ensures View() == Apply(old(View()), Event.ReadConfig(a, i))
    {
      var k := ConfigKey(a);
      var ok := k in store && store[k].Config? && store[k].baseUrl != "" && store[k].apiKey != "";
      uploads := uploads[(a, i) := if ok then Sending else UploadOver];
    }

    /** `onFileUpload` once the server has answered. */
    method UploadAnswered(a: string, i: string, hasUrl: bool, answer: Option<string>)
      requires (a, i) in uploads && uploads[(a, i)].Waiting?
      modifies this
      ensures View() == Apply(old(View()), Event.UploadAnswered(a, i, hasUrl, answer))
    {
      if !hasUrl {
        uploads := uploads[(a, i) := UploadOver];
        return;
      }
      var fileId := if answer.Some? then answer.value else i;
      uploads := uploads[(a, i) := Saving(fileId)];
      answered := answered + {(a, i, fileId)};
    }

    method SaveMapping(a: string, i: string)
      requires (a, i) in uploads && uploads[(a, i)].Saving?
      modifies this
      ensures View() == Apply(old(View()), Event.SaveMapping(a, i))
    {
      store := store[UploadKey(a, i) := File(uploads[(a, i)].name)];
      uploads := uploads[(a, i) := UploadOver];
    }

    /** `onFileDeleted` between reading the mapping and sending the request. */
    method LookUp(h: nat)
      requires h in deletions && deletions[h].LookingUp?
      modifies this
      ensures View() == Apply(old(View()), Event.LookUp(h))
    {
      var a, i := deletions[h].account, deletions[h].attachment;
      var key := UploadKey(a, i);
      if key !in store || !store[key].File? || store[key].id == "" {
        deletions := deletions[h := DeletionOver];
        return;
      }
      deletions := deletions[h := Purging(a, i, store[key].id)];
      purges := purges + {(a, i, store[key].id)};
    }

    method RemoveMapping(h: nat)
      requires h in deletions && deletions[h].Removing?
      modifies this
      ensures View() == Apply(old(View()), Event.RemoveMapping(h))
    {
      store := store - {UploadKey(deletions[h].account, deletions[h].attachment)};
      deletions := deletions[h := DeletionOver];
    }

    method AccountDeleted(a: string)
      modifies this
      ensures View() == Apply(old(View()), Event.AccountDeleted(a))
    {
      store := store - {ConfigKey(a)};
    }
  }
}
