/** `Server` as an object whose methods update its state in place: the
    files under the save directory, the hash store `_hashes`, the index
    `_index` and the counter `seq`. Each method is proved to leave exactly
    the state the functions of module Engine describe, so what is proved
    there about a run holds of the object. */
module ServerModel {
  import opened Text
  import opened FilenamePolicy
  import opened SearchCriteria
  import opened Engine

  /** Writing a key twice leaves the second value. */
  lemma OverwriteEntry<K, V>(m: map<K, V>, k: K, v: V, w: V)
    ensures m[k := v][k := w] == m[k := w]
  {
  }

  class Server {
    const username: string
    const search: string            // '' when the user gave no search
    const useIndex: bool
    const useFolders: bool
    const sha1: Bytes -> Hash
    const decodeHeader: string -> string

    var files: map<Path, Bytes>
    var hashes: set<Hash>
    var index: set<MsgId>
    var counter: nat                // self.seq

    function Config(): Env {
      Env(username, useIndex, useFolders, sha1, decodeHeader)
    }

    function State(): Store
      reads this
    {
      Store(files, hashes, index, counter)
    }

    /** The settings of lines 38-80, with the index and hash shelves and the
        save directory as they are on disk when the server starts; `seq`
        starts at 0 on the first save (lines 154-155). */
    constructor(username: string, search: string, useIndex: bool, useFolders: bool,
                sha1: Bytes -> Hash, decodeHeader: string -> string,
                files: map<Path, Bytes>, hashes: set<Hash>, index: set<MsgId>)
      ensures Config() == Env(username, useIndex, useFolders, sha1, decodeHeader)
      ensures this.search == search
      ensures State() == Store(files, hashes, index, 0)
    {
      this.username := username;
      this.search := search;
      this.useIndex := useIndex;
      this.useFolders := useFolders;
      this.sha1 := sha1;
      this.decodeHeader := decodeHeader;
      this.files := files;
      this.hashes := hashes;
      this.index := index;
      this.counter := 0;
    }

    /** `_filter_messages`: collect the image extensions, build the criteria
        and run the search; `found` is None when the search is rejected. */
    method FilterMessages(table: seq<TypeEntry>, mailbox: string -> Option<seq<Message>>)
      returns (criteria: string, found: Option<seq<Message>>)
      ensures criteria == Criteria(search, ImageExtensions(table))
      ensures found == mailbox(criteria)
    {
      var mimes: seq<string> := [];
      for i := 0 to |table|
        invariant mimes == ImageExtensions(table[..i])
      {
        assert table[..i + 1][..i] == table[..i];
        if Contains(table[i].1, "image") {
          mimes := mimes + [StripDots(table[i].0)];
        }
      }
      assert table[..|table|] == table;
      var mimelist := Join(mimes, Separator);
      criteria := Key + mimelist + ")";
      if search != [] {
        criteria := search + " " + criteria;
      }
      found := mailbox(criteria);
    }

    /** Lines 154-171 of `_save_part`: the declared name, decoded; the
        Content-Type name when the decoded name mentions `None`; a
        synthesised name, counted, when it is empty. */
    method PickName(part: Part) returns (name: string)
      modifies this
      ensures var c := ChooseName(DecodedName(Config(), part), part.contentTypeHeader, old(counter));
        name == c.name && State() == old(State()).(counter := NextCounter(c, old(counter)))
    {
      var decoded := decodeHeader(if part.filename.Some? then part.filename.value else UnnamedPlaceholder);
      if Contains(decoded, "None") {
        name := ContentTypeName(part.contentTypeHeader);
      } else if decoded == [] {
        name := SynthesizedName(counter);
        counter := counter + 1;
      } else {
        name := decoded;
      }
    }

    /** `_save_part`: choose and sanitise the name, prefix the date, then
        leave an existing file alone, create the file, and keep the payload
        only when its hash is new. */
    method SavePart(part: Part, mail: Mail, sender: string) returns (outcome: SaveOutcome)
      modifies this
      ensures SaveStep(State(), outcome) == Save(Config(), old(State()), part, mail, sender)
    {
      var name := PickName(part);
      name := Sanitize(name);

      if mail.date.None? {
        return SaveFailed(DateUnparseable);
      }
      var filename := DatePrefix(mail.date.value) + name;
      var saved := Destination(Config(), sender, filename);
      if saved in files {
        return AlreadyExists(saved);
      }

      files := files[saved := []];
      if part.payload.None? {
        return SaveFailed(PayloadUndecodable(saved));
      }
      var payload := part.payload.value;
      var payloadHash := sha1(payload);
      if payloadHash !in hashes {
        OverwriteEntry(old(files), saved, [], payload);
        files := files[saved := payload];
        hashes := hashes + {payloadHash};
        outcome := Written(saved, payloadHash);
      } else {
        files := files - {saved};
        assert files == old(files);
        outcome := Duplicate(saved, payloadHash);
      }
    }

    /** The part loop of lines 278-290: save every part that is not a
        container and whose content type mentions `image/`, in walk order,
        stopping at the first failed save. */
    method WalkParts(mail: Mail, sender: string) returns (error: Option<Error>)
      modifies this
      ensures Walk(State(), error) == SaveParts(Config(), old(State()), mail, sender, mail.parts)
    {
      var parts := mail.parts;
      ghost var start := State();
      var j := 0;
      while j < |parts|
        invariant 0 <= j <= |parts|
        invariant SaveParts(Config(), start, mail, sender, parts) ==
                  SaveParts(Config(), State(), mail, sender, parts[j..])
      {
        var part := parts[j];
        ghost var before := State();
        if part.maintype != "multipart" && Contains(part.contentType, "image/") {
          var o := SavePart(part, mail, sender);
          SavePartsSave(Config(), start, mail, sender, parts, j, before, SaveStep(State(), o));
          if o.SaveFailed? {
            return Some(o.error);
          }
        } else {
          SavePartsSkip(Config(), start, mail, sender, parts, j, before);
        }
        j := j + 1;
      }
      error := None;
    }

    /** One pass of the message loop of lines 240-293: skip an indexed
        message, fetch the body, ignore a non-multipart one, save every
        eligible part in walk order, then mark the message processed. */
    method ProcessMessage(m: Message) returns (error: Option<Error>, fetched: seq<MsgId>)
      modifies this
      ensures Step(State(), error, fetched) == Process(Config(), old(State()), m)
    {
      if useIndex && m.msgid in index {
        return None, [];
      }
      fetched := [m.msgid];
      var mail := m.mail;
      if mail.maintype != "multipart" {
        return None, fetched;
      }
      var sender := mail.fromAddress;
      if sender == [] {
        sender := "unknown_sender";
      }
      error := WalkParts(mail, sender);
      if error.Some? {
        return error, fetched;
      }
      index := index + {m.msgid};
    }

    /** The message loop of lines 240-293: process the hits in search
        order, stopping at the first one that fails. */
    method ProcessMessages(messages: seq<Message>) returns (error: Option<Error>, fetched: seq<MsgId>)
      modifies this
      ensures Step(State(), error, fetched) == ProcessAll(Config(), old(State()), messages)
    {
      ghost var start := State();
      fetched := [];
      var i := 0;
      while i < |messages|
        invariant 0 <= i <= |messages|
        invariant ProcessAll(Config(), start, messages) ==
                  Then(fetched, ProcessAll(Config(), State(), messages[i..]))
      {
        ghost var before := State();
        var e, f := ProcessMessage(messages[i]);
        ProcessAllStep(Config(), start, messages, i, fetched, before, State(), e, f);
        fetched := fetched + f;
        if e.Some? {
          return e, fetched;
        }
        i := i + 1;
      }
      assert fetched + [] == fetched;
      error := None;
    }

    /** `lostphotosfound()`: search, then process the hits. The run keeps
        the promises of Engine.Sound, and with the index in use it fetches
        no body of a message indexed beforehand. */
    method LostPhotosFound(table: seq<TypeEntry>, mailbox: string -> Option<seq<Message>>)
      returns (error: Option<Error>, fetched: seq<MsgId>)
      modifies this
      ensures Step(State(), error, fetched) == Pipeline(Config(), search, table, mailbox, old(State()))
      ensures Sound(Config(), old(State()), State(), error)
      ensures useIndex ==> forall k :: 0 <= k < |fetched| ==> fetched[k] !in old(index)
    {
      PipelineSound(Config(), search, table, mailbox, State());
      var criteria, found := FilterMessages(table, mailbox);
      if found.None? {
        return Some(SearchRejected(criteria)), [];
      }
      NeverFetchesIndexed(Config(), State(), found.value);
      error, fetched := ProcessMessages(found.value);
    }
  }
}
