/** The extraction and deduplication engine of `Server` as functions of an
    explicit store: the save step of `_save_part` (lines 154-223), the part
    walk and index insert of `lostphotosfound` (lines 240-293), and what they
    promise over a whole run. */
module Engine {
  import opened Text
  import opened FilenamePolicy
  import opened SearchCriteria

  type Bytes = seq<bv8>
  /** `hashlib.sha1(payload).hexdigest()`. */
  type Hash = string
  /** `str(...[b'X-GM-MSGID'])`. */
  type MsgId = string

  /** One node yielded by `mail.walk()`, as the email parser reports it. */
  datatype Part = Part(
    maintype: string,              // get_content_maintype()
    contentType: string,           // get_content_type()
    contentTypeHeader: string,     // get('Content-Type'), parameters included
    disposition: Option<string>,   // get('Content-Disposition')
    filename: Option<string>,      // get_filename()
    payload: Option<Bytes>)        // get_payload(decode=True); None when it fails

  /** A fetched RFC822 body, parsed. `parts` is the walk order, the message
      itself first. */
  datatype Mail = Mail(
    maintype: string,              // get_content_maintype()
    fromAddress: string,           // parseaddr(mail["From"])[1]
    date: Option<DateTime>,        // parsedate(...); None when it yields None
    parts: seq<Part>)

  /** A search hit: its durable identifier and the body a fetch would return. */
  datatype Message = Message(msgid: MsgId, mail: Mail)

  /** `~/LostPhotosFound/<username>[/<sender>]/<filename>` as an abstract key. */
  datatype Path = Path(account: string, senderFolder: Option<string>, name: string)

  /** The state the engine changes: the files under the save directory, the
      hash store `_hashes`, the processed index `_index` and `self.seq`. */
  datatype Store = Store(files: map<Path, Bytes>, hashes: set<Hash>, index: set<MsgId>, counter: nat)

  /** The fixed settings of a `Server` and the two foreign functions it calls. */
  datatype Env = Env(
    username: string,
    useIndex: bool,
    useFolders: bool,
    sha1: Bytes -> Hash,
    decodeHeader: string -> string)  // _charset_decoder

  datatype Error =
    | SearchRejected(criteria: string)   // gmail_search raised
    | DateUnparseable                    // parsedate gave None, header_date[0] raised
    | PayloadUndecodable(path: Path)     // get_payload raised inside open(saved, 'wb')

  datatype SaveOutcome =
    | Written(path: Path, hash: Hash)
    | Duplicate(path: Path, hash: Hash)
    | AlreadyExists(path: Path)
    | SaveFailed(error: Error)

  datatype SaveStep = SaveStep(store: Store, outcome: SaveOutcome)

  /** The end of a part walk: the store and the error that stopped it, if any. */
  datatype Walk = Walk(store: Store, error: Option<Error>)

  /** The end of a run or of one message: the store, the error that stopped
      it, and the identifiers whose RFC822 bodies were fetched, in order. */
  datatype Step = Step(store: Store, error: Option<Error>, fetched: seq<MsgId>)

  function OutcomeError(o: SaveOutcome): Option<Error> {
    if o.SaveFailed? then Some(o.error) else None
  }

  /** Lines 280-287: a part is saved when it is not a multipart container
      and its content type contains `image/`. */
  predicate IsEligible(p: Part) {
    p.maintype != "multipart" && Contains(p.contentType, "image/")
  }

  /** Lines 274-276. */
  function Sender(mail: Mail): (s: string)
    ensures s != []
    ensures mail.fromAddress != [] ==> s == mail.fromAddress
    ensures mail.fromAddress == [] ==> s == "unknown_sender"
  {
    if mail.fromAddress == [] then "unknown_sender" else mail.fromAddress
  }

  /** Lines 189-195, 203. */
  function Destination(env: Env, sender: string, filename: string): Path {
    Path(env.username, if env.useFolders then Some(sender) else None, filename)
  }

  /** Lines 159-162. */
  function DecodedName(env: Env, part: Part): string {
    env.decodeHeader(if part.filename.Some? then part.filename.value else UnnamedPlaceholder)
  }

  ghost predicate KeepsFiles(before: Store, after: Store) {
    forall p :: p in before.files ==> p in after.files && after.files[p] == before.files[p]
  }

  /** The save step of lines 154-223. */
  function Save(env: Env, st: Store, part: Part, mail: Mail, sender: string): (r: SaveStep)
    ensures KeepsFiles(st, r.store) && r.store.index == st.index
    ensures var c := ChooseName(DecodedName(env, part), part.contentTypeHeader, st.counter);
      && r.store.counter == NextCounter(c, st.counter)
      && (!r.outcome.SaveFailed? ==>
            mail.date.Some? && r.outcome.path == Destination(env, sender, FinalName(mail.date.value, c.name)))
      && (r.outcome.SaveFailed? && r.outcome.error.PayloadUndecodable? ==>
            mail.date.Some? && r.outcome.error.path == Destination(env, sender, FinalName(mail.date.value, c.name)))
    ensures r.outcome.SaveFailed? ==> r.outcome.error.DateUnparseable? || r.outcome.error.PayloadUndecodable?
    ensures r.outcome == SaveFailed(DateUnparseable) ==>
      mail.date.None? && r.store.files == st.files && r.store.hashes == st.hashes
    ensures r.outcome.AlreadyExists? ==>
      r.outcome.path in st.files && r.store.files == st.files && r.store.hashes == st.hashes
    ensures r.outcome.SaveFailed? && r.outcome.error.PayloadUndecodable? ==>
      var p := r.outcome.error.path;
      && p !in st.files && part.payload.None?
      && r.store.files == st.files[p := []] && r.store.hashes == st.hashes
    ensures r.outcome.Written? ==>
      var p, h := r.outcome.path, r.outcome.hash;
      && p !in st.files && part.payload.Some? && h == env.sha1(part.payload.value) && h !in st.hashes
      && r.store.files == st.files[p := part.payload.value] && r.store.hashes == st.hashes + {h}
    ensures r.outcome.Duplicate? ==>
      var p, h := r.outcome.path, r.outcome.hash;
      && p !in st.files && part.payload.Some? && h == env.sha1(part.payload.value) && h in st.hashes
      && r.store.files == st.files && r.store.hashes == st.hashes
  {
    var choice := ChooseName(DecodedName(env, part), part.contentTypeHeader, st.counter);
    var st1 := st.(counter := NextCounter(choice, st.counter));
    match mail.date
    case None => SaveStep(st1, SaveFailed(DateUnparseable))
    case Some(d) =>
      var path := Destination(env, sender, FinalName(d, choice.name));
      if path in st1.files then SaveStep(st1, AlreadyExists(path))
      else
        match part.payload
        case None => SaveStep(st1.(files := st1.files[path := []]), SaveFailed(PayloadUndecodable(path)))
        case Some(bytes) =>
          var h := env.sha1(bytes);
          if h !in st1.hashes then
            SaveStep(st1.(files := st1.files[path := bytes], hashes := st1.hashes + {h}), Written(path, h))
          else
            SaveStep(st1, Duplicate(path, h))
  }

  /** Wherever the name choice as written does not raise (the decoded name
      is not empty), the save step is the one the code performs: `seq`
      stays put and the file is named with the choice as written. */
  lemma SaveMatchesAsWritten(env: Env, st: Store, part: Part, mail: Mail, sender: string)
    requires ChooseNameAsWritten(DecodedName(env, part), part.contentTypeHeader, st.counter).Some?
    ensures var c := ChooseNameAsWritten(DecodedName(env, part), part.contentTypeHeader, st.counter).value;
      var r := Save(env, st, part, mail, sender);
      && r.store.counter == st.counter
      && (!r.outcome.SaveFailed? ==>
            r.outcome.path == Destination(env, sender, FinalName(mail.date.value, c.name)))
  {
    AsWrittenNeverSynthesizes(DecodedName(env, part), part.contentTypeHeader, st.counter);
  }

  /** The part loop of lines 278-290, stopping at the first failed save. */
  function SaveParts(env: Env, st: Store, mail: Mail, sender: string, parts: seq<Part>): (r: Walk)
    decreases |parts|
    ensures r.store.index == st.index
    ensures st.hashes <= r.store.hashes
  {
    if parts == [] then Walk(st, None)
    else if !IsEligible(parts[0]) then SaveParts(env, st, mail, sender, parts[1..])
    else
      var s := Save(env, st, parts[0], mail, sender);
      if s.outcome.SaveFailed? then Walk(s.store, Some(s.outcome.error))
      else SaveParts(env, s.store, mail, sender, parts[1..])
  }

  /** One turn of a loop over the parts that has reached parts[j] in state
      st, when parts[j] is not eligible: it is passed over. */
  lemma SavePartsSkip(env: Env, start: Store, mail: Mail, sender: string, parts: seq<Part>, j: nat, st: Store)
    requires j < |parts| && !IsEligible(parts[j])
    requires SaveParts(env, start, mail, sender, parts) == SaveParts(env, st, mail, sender, parts[j..])
    ensures SaveParts(env, start, mail, sender, parts) == SaveParts(env, st, mail, sender, parts[j + 1..])
  {
    assert parts[j..][0] == parts[j] && parts[j..][1..] == parts[j + 1..];
  }

  /** The same turn when parts[j] is eligible and its save gives s: the walk
      stops on a failed save and goes on from the new store otherwise. */
  lemma SavePartsSave(env: Env, start: Store, mail: Mail, sender: string, parts: seq<Part>, j: nat,
                      st: Store, s: SaveStep)
    requires j < |parts| && IsEligible(parts[j])
    requires SaveParts(env, start, mail, sender, parts) == SaveParts(env, st, mail, sender, parts[j..])
    requires s == Save(env, st, parts[j], mail, sender)
    ensures s.outcome.SaveFailed? ==>
      SaveParts(env, start, mail, sender, parts) == Walk(s.store, Some(s.outcome.error))
    ensures !s.outcome.SaveFailed? ==>
      SaveParts(env, start, mail, sender, parts) == SaveParts(env, s.store, mail, sender, parts[j + 1..])
  {
    assert parts[j..][0] == parts[j] && parts[j..][1..] == parts[j + 1..];
  }

  /** One iteration of the message loop of lines 240-293. */
  function Process(env: Env, st: Store, m: Message): (r: Step)
    ensures r.fetched == [] <==> env.useIndex && m.msgid in st.index
    ensures r.fetched == [] ==> r.store == st && r.error.None?
    ensures r.fetched != [] ==> r.fetched == [m.msgid]
    ensures m.mail.maintype != "multipart" ==> r.store == st && r.error.None?
    ensures r.store.index == st.index ||
      (r.store.index == st.index + {m.msgid} && m.mail.maintype == "multipart" && r.error.None?)
    ensures m.mail.maintype == "multipart" && r.error.None? ==> m.msgid in r.store.index
  {
    if env.useIndex && m.msgid in st.index then Step(st, None, [])
    else if m.mail.maintype != "multipart" then Step(st, None, [m.msgid])
    else
      var w := SaveParts(env, st, m.mail, Sender(m.mail), m.mail.parts);
      if w.error.Some? then Step(w.store, w.error, [m.msgid])
      else Step(w.store.(index := w.store.index + {m.msgid}), None, [m.msgid])
  }

  /** The message loop, stopping at the first error. */
  function ProcessAll(env: Env, st: Store, msgs: seq<Message>): (r: Step)
    decreases |msgs|
    ensures st.index <= r.store.index
    ensures |r.fetched| <= |msgs|
  {
    if msgs == [] then Step(st, None, [])
    else
      var first := Process(env, st, msgs[0]);
      if first.error.Some? then first
      else
        var rest := ProcessAll(env, first.store, msgs[1..]);
        Step(rest.store, rest.error, first.fetched + rest.fetched)
  }

  /** One turn of a loop over msgs that has fetched `fetched` so far and
      reached msgs[i] in state st, given the outcome of msgs[i]. */
  lemma ProcessAllStep(env: Env, start: Store, msgs: seq<Message>, i: nat, fetched: seq<MsgId>,
                       st: Store, after: Store, error: Option<Error>, more: seq<MsgId>)
    requires i < |msgs|
    requires ProcessAll(env, start, msgs) == Then(fetched, ProcessAll(env, st, msgs[i..]))
    requires Step(after, error, more) == Process(env, st, msgs[i])
    ensures error.Some? ==> ProcessAll(env, start, msgs) == Step(after, error, fetched + more)
    ensures error.None? ==>
      ProcessAll(env, start, msgs) == Then(fetched + more, ProcessAll(env, after, msgs[i + 1..]))
  {
    assert msgs[i..][0] == msgs[i] && msgs[i..][1..] == msgs[i + 1..];
    var rest := ProcessAll(env, after, msgs[i + 1..]);
    assert fetched + (more + rest.fetched) == fetched + more + rest.fetched;
  }

  /** `lostphotosfound()` without the IMAP session: build the criteria, ask
      the mailbox, process what it returns. */
  function Pipeline(env: Env, search: string, table: seq<TypeEntry>,
                    mailbox: string -> Option<seq<Message>>, st: Store): Step
  {
    var criteria := Criteria(search, ImageExtensions(table));
    match mailbox(criteria)
    case None => Step(st, Some(SearchRejected(criteria)), [])
    case Some(msgs) => ProcessAll(env, st, msgs)
  }

  /** A run step preceded by fetches already made. */
  function Then(prefix: seq<MsgId>, s: Step): Step {
    Step(s.store, s.error, prefix + s.fetched)
  }

  // ---------------------------------------------------------------------
  // Files and hashes

  predicate IsNew(before: Store, after: Store, p: Path) {
    p in after.files && p !in before.files
  }

  /** The path left holding an empty file when a run stops on a payload that
      could not be decoded. */
  function FailedPath(error: Option<Error>): set<Path> {
    if error.Some? && error.value.PayloadUndecodable? then {error.value.path} else {}
  }

  /** What a run promises about the files and hashes: existing files are
      never touched, the stores only grow, every file it writes has a hash
      that was new and is now stored, no two of them share a hash, every
      hash it adds belongs to one of them, and the only other file it leaves
      is the empty one of a failed payload decode. */
  ghost predicate Sound(env: Env, before: Store, after: Store, error: Option<Error>) {
    && KeepsFiles(before, after)
    && before.hashes <= after.hashes
    && before.index <= after.index
    && (forall p :: IsNew(before, after, p) && p !in FailedPath(error) ==>
          env.sha1(after.files[p]) in after.hashes && env.sha1(after.files[p]) !in before.hashes)
    && (forall p, q ::
          (IsNew(before, after, p) && IsNew(before, after, q) &&
           p !in FailedPath(error) && q !in FailedPath(error) && p != q) ==>
          env.sha1(after.files[p]) != env.sha1(after.files[q]))
    && (forall h :: h in after.hashes && h !in before.hashes ==>
          exists p :: IsNew(before, after, p) && p !in FailedPath(error) && env.sha1(after.files[p]) == h)
    && (forall p :: p in FailedPath(error) ==> IsNew(before, after, p) && after.files[p] == [])
  }

  lemma SoundUnchanged(env: Env, st: Store, st': Store)
    requires st'.files == st.files && st'.hashes == st.hashes && st.index <= st'.index
    ensures Sound(env, st, st', None)
  {
  }

  lemma SoundTrans(env: Env, a: Store, b: Store, c: Store, error: Option<Error>)
    requires Sound(env, a, b, None) && Sound(env, b, c, error)
    ensures Sound(env, a, c, error)
  {
    TransFresh(env, a, b, c, error);
    TransDistinct(env, a, b, c, error);
    TransCovered(env, a, b, c, error);
  }

  lemma TransFresh(env: Env, a: Store, b: Store, c: Store, error: Option<Error>)
    requires Sound(env, a, b, None) && Sound(env, b, c, error)
    ensures forall p :: IsNew(a, c, p) && p !in FailedPath(error) ==>
      env.sha1(c.files[p]) in c.hashes && env.sha1(c.files[p]) !in a.hashes
  {
    forall p | IsNew(a, c, p) && p !in FailedPath(error)
      ensures env.sha1(c.files[p]) in c.hashes && env.sha1(c.files[p]) !in a.hashes
    {
      if p in b.files { assert IsNew(a, b, p); }
      else { assert IsNew(b, c, p); }
    }
  }

  lemma TransDistinct(env: Env, a: Store, b: Store, c: Store, error: Option<Error>)
    requires Sound(env, a, b, None) && Sound(env, b, c, error)
    ensures forall p, q ::
      (IsNew(a, c, p) && IsNew(a, c, q) && p !in FailedPath(error) && q !in FailedPath(error) && p != q) ==>
      env.sha1(c.files[p]) != env.sha1(c.files[q])
  {
    var X := FailedPath(error);
    forall p, q | IsNew(a, c, p) && IsNew(a, c, q) && p !in X && q !in X && p != q
      ensures env.sha1(c.files[p]) != env.sha1(c.files[q])
    {
      TransDistinctPair(env, a, b, c, error, p, q);
    }
  }

  lemma TransDistinctPair(env: Env, a: Store, b: Store, c: Store, error: Option<Error>, p: Path, q: Path)
    requires Sound(env, a, b, None) && Sound(env, b, c, error)
    requires IsNew(a, c, p) && IsNew(a, c, q) && p !in FailedPath(error) && q !in FailedPath(error) && p != q
    ensures env.sha1(c.files[p]) != env.sha1(c.files[q])
  {
    if p in b.files && q in b.files {
      assert IsNew(a, b, p) && IsNew(a, b, q);
    } else if p in b.files {
      assert IsNew(a, b, p) && IsNew(b, c, q);
    } else if q in b.files {
      assert IsNew(a, b, q) && IsNew(b, c, p);
    } else {
      assert IsNew(b, c, p) && IsNew(b, c, q);
    }
  }

  lemma TransCovered(env: Env, a: Store, b: Store, c: Store, error: Option<Error>)
    requires Sound(env, a, b, None) && Sound(env, b, c, error)
    ensures forall h :: h in c.hashes && h !in a.hashes ==>
      exists p :: IsNew(a, c, p) && p !in FailedPath(error) && env.sha1(c.files[p]) == h
  {
    forall h | h in c.hashes && h !in a.hashes
      ensures exists p :: IsNew(a, c, p) && p !in FailedPath(error) && env.sha1(c.files[p]) == h
    {
      if h in b.hashes {
        var p :| IsNew(a, b, p) && env.sha1(b.files[p]) == h;
        assert IsNew(a, c, p) && p !in FailedPath(error);
      } else {
        var p :| IsNew(b, c, p) && p !in FailedPath(error) && env.sha1(c.files[p]) == h;
        assert IsNew(a, c, p);
      }
    }
  }

  lemma SoundOneFile(env: Env, st: Store, st': Store, p: Path, bytes: Bytes)
    requires p !in st.files && env.sha1(bytes) !in st.hashes
    requires st'.files == st.files[p := bytes] && st'.hashes == st.hashes + {env.sha1(bytes)}
    requires st.index <= st'.index
    ensures Sound(env, st, st', None)
  {
    assert forall q :: IsNew(st, st', q) ==> q == p;
    assert IsNew(st, st', p);
  }

  lemma SoundEmptyFile(env: Env, st: Store, st': Store, p: Path)
    requires p !in st.files
    requires st'.files == st.files[p := []] && st'.hashes == st.hashes && st.index <= st'.index
    ensures Sound(env, st, st', Some(PayloadUndecodable(p)))
  {
    assert forall q :: IsNew(st, st', q) ==> q == p;
  }

  lemma SaveSound(env: Env, st: Store, part: Part, mail: Mail, sender: string)
    ensures var s := Save(env, st, part, mail, sender);
      Sound(env, st, s.store, OutcomeError(s.outcome))
  {
    var o := Save(env, st, part, mail, sender).outcome;
    if o.Written? {
      SaveSoundWritten(env, st, part, mail, sender);
    } else if o.SaveFailed? && o.error.PayloadUndecodable? {
      SaveSoundEmpty(env, st, part, mail, sender);
    } else {
      SaveSoundQuiet(env, st, part, mail, sender);
    }
  }

  lemma SaveSoundWritten(env: Env, st: Store, part: Part, mail: Mail, sender: string)
    requires Save(env, st, part, mail, sender).outcome.Written?
    ensures var s := Save(env, st, part, mail, sender);
      Sound(env, st, s.store, OutcomeError(s.outcome))
  {
    var s := Save(env, st, part, mail, sender);
    SoundOneFile(env, st, s.store, s.outcome.path, part.payload.value);
  }

  lemma SaveSoundEmpty(env: Env, st: Store, part: Part, mail: Mail, sender: string)
    requires var o := Save(env, st, part, mail, sender).outcome;
      o.SaveFailed? && o.error.PayloadUndecodable?
    ensures var s := Save(env, st, part, mail, sender);
      Sound(env, st, s.store, OutcomeError(s.outcome))
  {
    var s := Save(env, st, part, mail, sender);
    SoundEmptyFile(env, st, s.store, s.outcome.error.path);
  }

  lemma SaveSoundQuiet(env: Env, st: Store, part: Part, mail: Mail, sender: string)
    requires var o := Save(env, st, part, mail, sender).outcome;
      !o.Written? && !(o.SaveFailed? && o.error.PayloadUndecodable?)
    ensures var s := Save(env, st, part, mail, sender);
      Sound(env, st, s.store, OutcomeError(s.outcome))
  {
    var s := Save(env, st, part, mail, sender);
    assert s.store.files == st.files && s.store.hashes == st.hashes;
    assert FailedPath(OutcomeError(s.outcome)) == {};
  }

  lemma {:induction false} SavePartsSound(env: Env, st: Store, mail: Mail, sender: string, parts: seq<Part>)
    decreases |parts|
    ensures var w := SaveParts(env, st, mail, sender, parts); Sound(env, st, w.store, w.error)
  {
    if parts == [] {
      SoundUnchanged(env, st, st);
    } else if !IsEligible(parts[0]) {
      SavePartsSound(env, st, mail, sender, parts[1..]);
    } else {
      var s := Save(env, st, parts[0], mail, sender);
      SaveSound(env, st, parts[0], mail, sender);
      if !s.outcome.SaveFailed? {
        SavePartsSound(env, s.store, mail, sender, parts[1..]);
        SoundTrans(env, st, s.store, SaveParts(env, s.store, mail, sender, parts[1..]).store,
                   SaveParts(env, s.store, mail, sender, parts[1..]).error);
      }
    }
  }

  lemma ProcessSound(env: Env, st: Store, m: Message)
    ensures var r := Process(env, st, m); Sound(env, st, r.store, r.error)
  {
    var r := Process(env, st, m);
    if !(env.useIndex && m.msgid in st.index) && m.mail.maintype == "multipart" {
      var w := SaveParts(env, st, m.mail, Sender(m.mail), m.mail.parts);
      SavePartsSound(env, st, m.mail, Sender(m.mail), m.mail.parts);
      if w.error.None? {
        SoundUnchanged(env, w.store, r.store);
        SoundTrans(env, st, w.store, r.store, None);
      }
    } else {
      SoundUnchanged(env, st, r.store);
    }
  }

  lemma {:induction false} ProcessAllSound(env: Env, st: Store, msgs: seq<Message>)
    decreases |msgs|
    ensures var r := ProcessAll(env, st, msgs); Sound(env, st, r.store, r.error)
  {
    if msgs == [] {
      SoundUnchanged(env, st, st);
    } else {
      var first := Process(env, st, msgs[0]);
      ProcessSound(env, st, msgs[0]);
      if first.error.None? {
        var rest := ProcessAll(env, first.store, msgs[1..]);
        ProcessAllSound(env, first.store, msgs[1..]);
        SoundTrans(env, st, first.store, rest.store, rest.error);
      }
    }
  }

  /** Over a whole run: no existing file is touched and the files written
      have pairwise distinct hashes (see Sound). */
  lemma PipelineSound(env: Env, search: string, table: seq<TypeEntry>,
                      mailbox: string -> Option<seq<Message>>, st: Store)
    ensures var r := Pipeline(env, search, table, mailbox, st); Sound(env, st, r.store, r.error)
  {
    match mailbox(Criteria(search, ImageExtensions(table)))
    case None => SoundUnchanged(env, st, st);
    case Some(msgs) => ProcessAllSound(env, st, msgs);
  }

  // ---------------------------------------------------------------------
  // The processed index

  function MsgIds(msgs: seq<Message>): (ids: seq<MsgId>)
    ensures |ids| == |msgs| && forall k :: 0 <= k < |msgs| ==> ids[k] == msgs[k].msgid
  {
    if msgs == [] then [] else [msgs[0].msgid] + MsgIds(msgs[1..])
  }

  /** Every fetched identifier is among ids, and none is in index when the
      index is in use. */
  predicate FetchedAmong(fetched: seq<MsgId>, ids: seq<MsgId>, useIndex: bool, index: set<MsgId>) {
    forall k :: 0 <= k < |fetched| ==> fetched[k] in ids && (useIndex ==> fetched[k] !in index)
  }

  /** With the index in use, no message already in the index when the run
      starts has its body fetched; and every fetch is for a search hit. */
  lemma {:induction false} NeverFetchesIndexed(env: Env, st: Store, msgs: seq<Message>)
    decreases |msgs|
    ensures FetchedAmong(ProcessAll(env, st, msgs).fetched, MsgIds(msgs), env.useIndex, st.index)
  {
    if msgs != [] {
      var first := Process(env, st, msgs[0]);
      if first.error.None? {
        var rest := ProcessAll(env, first.store, msgs[1..]);
        NeverFetchesIndexed(env, first.store, msgs[1..]);
        assert FetchedAmong(rest.fetched, MsgIds(msgs[1..]), env.useIndex, first.store.index);
        var ids := MsgIds(msgs);
        assert ids == [msgs[0].msgid] + MsgIds(msgs[1..]);
        var f := first.fetched + rest.fetched;
        assert ProcessAll(env, st, msgs).fetched == f;
        forall k | 0 <= k < |f|
          ensures f[k] in ids && (env.useIndex ==> f[k] !in st.index)
        {
          if k < |first.fetched| {
            assert f[k] == msgs[0].msgid;
          } else {
            var k' := k - |first.fetched|;
            assert f[k] == rest.fetched[k'];
          }
        }
      }
    }
  }

  /** Every identifier a run adds to the index is that of a multipart
      message among the search hits: a non-multipart message is never
      marked processed. */
  lemma {:induction false} IndexGainsOnlyMultipart(env: Env, st: Store, msgs: seq<Message>)
    decreases |msgs|
    ensures var r := ProcessAll(env, st, msgs);
      forall id :: id in r.store.index && id !in st.index ==>
        exists j :: 0 <= j < |msgs| && msgs[j].msgid == id && msgs[j].mail.maintype == "multipart"
  {
    if msgs != [] {
      var first := Process(env, st, msgs[0]);
      if first.error.None? {
        var rest := ProcessAll(env, first.store, msgs[1..]);
        IndexGainsOnlyMultipart(env, first.store, msgs[1..]);
        forall id | id in rest.store.index && id !in st.index
          ensures exists j :: 0 <= j < |msgs| && msgs[j].msgid == id && msgs[j].mail.maintype == "multipart"
        {
          if id in first.store.index {
            assert msgs[0].msgid == id && msgs[0].mail.maintype == "multipart";
          } else {
            var j :| 0 <= j < |msgs[1..]| && msgs[1..][j].msgid == id && msgs[1..][j].mail.maintype == "multipart";
            assert msgs[j + 1] == msgs[1..][j];
          }
        }
      }
    }
  }

  /** A run that ends without error has every multipart search hit in the
      index. */
  lemma {:induction false} CompletedRunIndexesMultipart(env: Env, st: Store, msgs: seq<Message>)
    decreases |msgs|
    ensures var r := ProcessAll(env, st, msgs);
      r.error.None? ==>
        forall j :: 0 <= j < |msgs| && msgs[j].mail.maintype == "multipart" ==> msgs[j].msgid in r.store.index
  {
    if msgs != [] {
      var first := Process(env, st, msgs[0]);
      if first.error.None? {
        var rest := ProcessAll(env, first.store, msgs[1..]);
        CompletedRunIndexesMultipart(env, first.store, msgs[1..]);
        forall j | 0 <= j < |msgs| && msgs[j].mail.maintype == "multipart" && rest.error.None?
          ensures msgs[j].msgid in rest.store.index
        {
          if j == 0 {
            assert msgs[0].msgid in first.store.index;
          } else {
            assert msgs[1..][j - 1] == msgs[j];
          }
        }
      }
    }
  }

  /** A run over hits whose multipart messages are all indexed changes
      nothing and fails nowhere; it fetches only non-multipart bodies. */
  lemma {:induction false} IndexedRunIsQuiet(env: Env, st: Store, msgs: seq<Message>)
    requires env.useIndex
    requires forall j :: 0 <= j < |msgs| && msgs[j].mail.maintype == "multipart" ==> msgs[j].msgid in st.index
    decreases |msgs|
    ensures var r := ProcessAll(env, st, msgs);
      && r.store == st && r.error.None?
      && forall k :: 0 <= k < |r.fetched| ==>
           exists j :: 0 <= j < |msgs| && msgs[j].msgid == r.fetched[k] && msgs[j].mail.maintype != "multipart"
  {
    if msgs != [] {
      var first := Process(env, st, msgs[0]);
      assert first.store == st;
      var rest := ProcessAll(env, st, msgs[1..]);
      IndexedRunIsQuiet(env, st, msgs[1..]);
      var f := first.fetched + rest.fetched;
      forall k | 0 <= k < |f|
        ensures exists j :: 0 <= j < |msgs| && msgs[j].msgid == f[k] && msgs[j].mail.maintype != "multipart"
      {
        if k < |first.fetched| {
          assert f[k] == msgs[0].msgid && msgs[0].mail.maintype != "multipart";
        } else {
          assert f[k] == rest.fetched[k - |first.fetched|];
          var j :| 0 <= j < |msgs[1..]| && msgs[1..][j].msgid == f[k] && msgs[1..][j].mail.maintype != "multipart";
          assert msgs[j + 1] == msgs[1..][j];
        }
      }
    }
  }

  /** Every fetched identifier is outside index and belongs to a
      non-multipart message among msgs. */
  predicate RefetchesOnlyPlain(fetched: seq<MsgId>, msgs: seq<Message>, index: set<MsgId>) {
    forall k :: 0 <= k < |fetched| ==>
      fetched[k] !in index &&
      exists j :: 0 <= j < |msgs| && msgs[j].msgid == fetched[k] && msgs[j].mail.maintype != "multipart"
  }

  /** Running the message loop twice over the same hits, the first time to
      completion: the second changes nothing and fetches again only bodies
      the index does not hold, which are those of non-multipart hits. */
  lemma RunTwice(env: Env, st: Store, msgs: seq<Message>)
    requires env.useIndex && ProcessAll(env, st, msgs).error.None?
    ensures var st' := ProcessAll(env, st, msgs).store;
      var again := ProcessAll(env, st', msgs);
      again.store == st' && again.error.None? && RefetchesOnlyPlain(again.fetched, msgs, st'.index)
  {
    var st' := ProcessAll(env, st, msgs).store;
    CompletedRunIndexesMultipart(env, st, msgs);
    IndexedRunIsQuiet(env, st', msgs);
    NeverFetchesIndexed(env, st', msgs);
    var again := ProcessAll(env, st', msgs);
    assert FetchedAmong(again.fetched, MsgIds(msgs), env.useIndex, st'.index);
  }

  /** Idempotent re-run: with the index in use and the mailbox unchanged, a
      second run after one that completed writes no file, adds no hash or
      index entry, and fetches again only the bodies of non-multipart hits
      (which the first run did not index). */
  lemma RerunChangesNothing(env: Env, search: string, table: seq<TypeEntry>,
                            mailbox: string -> Option<seq<Message>>, st: Store)
    requires env.useIndex
    requires Pipeline(env, search, table, mailbox, st).error.None?
    ensures var st' := Pipeline(env, search, table, mailbox, st).store;
      var again := Pipeline(env, search, table, mailbox, st');
      && again.store == st' && again.error.None?
      && RefetchesOnlyPlain(again.fetched, mailbox(Criteria(search, ImageExtensions(table))).value, st'.index)
  {
    var msgs := mailbox(Criteria(search, ImageExtensions(table))).value;
    RunTwice(env, st, msgs);
  }

  /** The part walk of the scenario below: the one eligible part is
      written to a fresh path. */
  lemma OneImageWalk(env: Env, st: Store, mail: Mail, part: Part)
    requires mail.date.Some? && part.payload.Some?
    requires Eligible(mail.parts) == [part]
    requires st.files == map[] && st.hashes == {}
    ensures var w := SaveParts(env, st, mail, Sender(mail), mail.parts);
      && w.error.None? && w.store.index == st.index
      && w.store.files.Values == {part.payload.value} && |w.store.files| == 1
      && w.store.hashes == {env.sha1(part.payload.value)}
  {
    var sender := Sender(mail);
    WalkSavesExactlyEligible(env, st, mail, sender, mail.parts);
    var s := Save(env, st, part, mail, sender);
    assert s.outcome.Written?;
    assert SaveAll(env, st, mail, sender, [part]) == Walk(s.store, None);
    assert s.store.files == map[s.outcome.path := part.payload.value];
  }

  /** One multipart message with one eligible image part whose name
      decodes to a non-empty string (so the name choice as written does not
      raise), from an empty store: the first run writes one file holding the payload, stores its
      hash and indexes the message; with the index in use a second run
      fetches nothing and changes nothing. */
  lemma OneImageScenario(env: Env, st: Store, id: MsgId, mail: Mail, part: Part)
    requires mail.maintype == "multipart" && mail.date.Some? && part.payload.Some?
    requires DecodedName(env, part) != []
    requires Eligible(mail.parts) == [part]
    requires st.files == map[] && st.hashes == {} && st.index == {}
    ensures var first := ProcessAll(env, st, [Message(id, mail)]);
      && first.error.None? && first.fetched == [id]
      && first.store.files.Values == {part.payload.value} && |first.store.files| == 1
      && first.store.hashes == {env.sha1(part.payload.value)}
      && first.store.index == {id}
      && (env.useIndex ==> ProcessAll(env, first.store, [Message(id, mail)]) == Step(first.store, None, []))
  {
    var m := Message(id, mail);
    OneImageWalk(env, st, mail, part);
    var w := SaveParts(env, st, mail, Sender(mail), mail.parts);
    var done := w.store.(index := {id});
    assert Process(env, st, m) == Step(done, None, [id]);
    assert [m][0] == m && [m][1..] == [];
    assert ProcessAll(env, st, [m]) == Step(done, None, [id]);
    if env.useIndex {
      assert Process(env, done, m) == Step(done, None, []);
    }
  }

  /** Without the index nothing is skipped: a run that completes fetches
      every hit's body, in search order. */
  lemma {:induction false} WithoutIndexFetchesAll(env: Env, st: Store, msgs: seq<Message>)
    requires !env.useIndex
    decreases |msgs|
    ensures var r := ProcessAll(env, st, msgs); r.error.None? ==> r.fetched == MsgIds(msgs)
  {
    if msgs != [] {
      var first := Process(env, st, msgs[0]);
      if first.error.None? {
        WithoutIndexFetchesAll(env, first.store, msgs[1..]);
      }
    }
  }

  // ---------------------------------------------------------------------
  // Eligibility

  /** The parts the walk hands to the save step, in walk order. */
  function Eligible(parts: seq<Part>): (r: seq<Part>)
    ensures forall p :: p in r <==> p in parts && IsEligible(p)
  {
    if parts == [] then []
    else
      assert forall p :: p in parts <==> p == parts[0] || p in parts[1..];
      (if IsEligible(parts[0]) then [parts[0]] else []) + Eligible(parts[1..])
  }

  /** Saves every part of the list, stopping at the first failure. */
  function SaveAll(env: Env, st: Store, mail: Mail, sender: string, parts: seq<Part>): Walk
    decreases |parts|
  {
    if parts == [] then Walk(st, None)
    else
      var s := Save(env, st, parts[0], mail, sender);
      if s.outcome.SaveFailed? then Walk(s.store, Some(s.outcome.error))
      else SaveAll(env, s.store, mail, sender, parts[1..])
  }

  /** The walk behaves as if the ineligible parts were not there. */
  lemma {:induction false} WalkSavesExactlyEligible(env: Env, st: Store, mail: Mail, sender: string, parts: seq<Part>)
    decreases |parts|
    ensures SaveParts(env, st, mail, sender, parts) == SaveAll(env, st, mail, sender, Eligible(parts))
  {
    if parts != [] {
      var e := Eligible(parts[1..]);
      if IsEligible(parts[0]) {
        var s := Save(env, st, parts[0], mail, sender);
        assert Eligible(parts) == [parts[0]] + e;
        assert ([parts[0]] + e)[0] == parts[0] && ([parts[0]] + e)[1..] == e;
        WalkSavesExactlyEligible(env, s.store, mail, sender, parts[1..]);
      } else {
        assert Eligible(parts) == e;
        WalkSavesExactlyEligible(env, st, mail, sender, parts[1..]);
      }
    }
  }

  /** Content-Disposition plays no part: neither eligibility nor the save
      step looks at it. */
  lemma DispositionIgnored(env: Env, st: Store, part: Part, mail: Mail, sender: string, d: Option<string>)
    ensures IsEligible(part.(disposition := d)) == IsEligible(part)
    ensures Save(env, st, part.(disposition := d), mail, sender) == Save(env, st, part, mail, sender)
  {
  }
}
