# LostPhotosFound attachment engine, modelled in Dafny

LostPhotosFound is a Gmail client that downloads every image attachment
from a mailbox. It asks Gmail for the messages that carry an image
attachment. For each message not yet processed it fetches the body and
walks its MIME parts. Each image part is saved under
`~/LostPhotosFound/<account>[/<sender>]/` with a date-stamped, sanitised
name. Payloads whose SHA-1 was seen before are skipped, and a message is
recorded in an index once its parts are done.

What this model covers:

- **The state.** The class `ServerModel.Server` holds the files saved so
  far (`files`), the hash store (`hashes`, standing for `_hashes`), the
  processed-message index (`index`, for `_index`) and the synthesis
  counter (`counter`, for `self.seq`).
- **The methods.** The class's methods follow `_filter_messages`,
  `_save_part` and the `lostphotosfound` run loop statement by statement,
  with one exception: an empty decoded file name. There the name choice is
  the corrected one of the Finding below, not the IndexError the code
  raises. Each method is proved to leave exactly the state that a pure
  function of module `Engine` computes.
- **The run-level properties.** These are proved in `Engine` about those
  functions:
  - an existing file is never touched;
  - every file written in a run holds a payload whose hash was new, and
    no two of them share a hash;
  - with the index in use, a message already in the index is never
    fetched again;
  - only multipart messages are ever indexed;
  - with the index in use, a re-run after a completed run changes
    nothing.
- **The naming rules.** `FilenamePolicy` has the name choice, the
  punctuation strip and the unpadded `Y-M-D_H-M-S_` date prefix, which is
  proved to be readable back off a file name.
- **The search string.** `SearchCriteria` builds the Gmail search string.
- **The string helpers.** `Text` stands for the Python str operations the
  code relies on: substring tests, `split(sep)[-1]`, `translate`, `'%s'`
  and `'%06d'`.

Modules: `Text` (text.dfy), `FilenamePolicy` (filename_policy.dfy),
`SearchCriteria` (search_criteria.dfy), `Engine` (engine.dfy) and
`ServerModel` (server.dfy).

Foreign calls are not modelled; they enter as parameters:

- `mimetypes.types_map` is a parameter table of `(extension, type)` pairs.
- `gmail_search` together with the two `fetch` calls is a parameter
  `mailbox`. It maps a criteria string to the list of hits, or to `None`
  when the search is rejected. Each hit carries its `X-GM-MSGID` and its
  parsed body.
- `hashlib.sha1(...).hexdigest()` and `_charset_decoder` are function
  values fixed when the server is built.
- The email parser's answers are record fields:
  - `get_content_maintype`, `get_content_type`, `get('Content-Type')`,
    `get('Content-Disposition')`, `get_filename` and
    `get_payload(decode=True)` are fields of `Part`;
  - `parsedate` of the Date header and `parseaddr(From)[1]` are fields of
    `Mail`.
- A payload that cannot be decoded is `payload == None`. A Date header
  that `parsedate` cannot read is `date == None`.

Some behaviours of the code are easy to misread. The model follows the
code:

- **Non-multipart messages.** A message whose top-level type is not
  multipart is skipped by the `continue` at server.py:261. That also skips
  the index insert at line 293, so such a message is not marked processed
  and its body is fetched again on every run. `Engine.Process`,
  `Engine.IndexGainsOnlyMultipart` and `Engine.RunTwice` state this.
- **Parentheses.** `(` and `)` are not in the stripped set at line 174, so
  they survive sanitising (`FilenamePolicy.SanitizeKeepsSeparators`).
- **The `image/` test.** Eligibility is the substring test
  `'image/' in get_content_type()` (line 286), not a comparison of the
  top-level type with `image`.
- **The `None` test.** The test at line 166 is also a substring test: any
  decoded name containing `None` switches to the Content-Type name.
- **No fallback after the Content-Type name.** The code never falls back
  from the Content-Type name to a synthesised one, even when that name is
  empty.
- **The synthesised name.** As written, the synthesised branch cannot be
  reached: an empty decoded name raises IndexError instead. The model
  states this (`FilenamePolicy.AsWrittenNeverSynthesizes`). The engine
  uses the corrected choice (see Findings); `Engine.SaveMatchesAsWritten`
  shows that the two agree on every other input.
- **Where a failed decode leaves the file.** The file is opened, and so
  created empty, before the payload is decoded. A decoding failure
  therefore leaves an empty file at the destination path, and the run
  stops (`Engine.Save`, `Engine.Sound`).

## Model

| member | source | states |
|---|---|---|
| Text.AfterLastSpec | lostphotosfound/server.py:167 | `split('name=')[-1]` is a suffix of the header that holds no `name=`. It is preceded by `name=` when the header contains one, and is the whole header otherwise. |
| Text.DeleteChars | lostphotosfound/server.py:174-176 | After `translate` with a deleting table, no character of the set remains. The result is no longer than the input, and the input comes back unchanged when it holds none of them. |
| Text.DeleteCharsKeeps | lostphotosfound/server.py:174-176 | Every character outside the deleted set occurs in the result exactly as often as in the input. |
| Text.DeleteCharsInOrder | lostphotosfound/server.py:174-176 | The surviving characters keep their original order: the result is a subsequence of the input. |
| Text.NatToString | lostphotosfound/server.py:180-185 | `'%s' % n` for a date field gives a non-empty run of decimal digits with no leading zero. |
| Text.NatToStringValue | lostphotosfound/server.py:180-185 | Those digits denote n. |
| Text.ParseNatToString | lostphotosfound/server.py:180-185 | A formatted field followed by a non-digit, or by nothing, is read back as the same number, with the rest left over. |
| Text.ZeroPad | lostphotosfound/server.py:170 | `'%06d' % n` is all digits, and exactly 6 long unless n needs more digits; it is never truncated. |
| Text.ZeroPadValue | lostphotosfound/server.py:170 | The padded digits still denote n. |
| Text.ZeroPadInjective | lostphotosfound/server.py:170 | Different counter values give different `'%06d'` strings. |
| FilenamePolicy.SanitizeSpec | lostphotosfound/server.py:173-176 | Sanitising leaves no character of the 22-character punctuation set (backslash included). Every other character is kept as often as it occurred, in its original order. |
| FilenamePolicy.SanitizeKeepsSeparators | lostphotosfound/server.py:174-176 | `(`, `)`, `.`, `-`, `_` and space are kept exactly as often as they occur. |
| FilenamePolicy.DatePrefixRoundTrip | lostphotosfound/server.py:179-186 | The unpadded `Y-M-D_H-M-S_` prefix can be parsed back into the six date fields, leaving exactly the sanitised name. |
| FilenamePolicy.FinalNameInjective | lostphotosfound/server.py:179-186 | Two attachments get the same file name only when their messages have the same date and their names sanitise to the same text. |
| FilenamePolicy.SynthesizedNameInjective | lostphotosfound/server.py:170 | Distinct counter values give distinct `attachment-NNNNNN.data` names. |
| FilenamePolicy.SynthesizedNameSurvivesSanitize | lostphotosfound/server.py:170-176 | A synthesised name holds no punctuation, so sanitising leaves it unchanged. |
| FilenamePolicy.ContentTypeNameSpec | lostphotosfound/server.py:166-167 | The Content-Type fallback is the text after the last `name=` with every `"` removed, and it contains no `"`. |
| FilenamePolicy.ChooseName | lostphotosfound/server.py:159-171 | The name choice, with the empty-name fallback the code evidently intends. The Content-Type name is used exactly when the decoded name contains `None`. A synthesised name is used exactly when the decoded name is empty. Otherwise the decoded name is kept. Each variant carries the name it states. |
| FilenamePolicy.NextCounter | lostphotosfound/server.py:168-171 | `seq` grows by exactly one when a name is synthesised and is unchanged otherwise. |
| FilenamePolicy.AsWrittenNeverSynthesizes | lostphotosfound/server.py:166-171 | As written, the choice fails, with an IndexError, exactly when the decoded name is empty. It never synthesises, and wherever it succeeds it agrees with the corrected choice. |
| FilenamePolicy.EmptyNameAsWritten | lostphotosfound/server.py:162-171 | For an empty decoded name, the code as written fails, while the corrected choice synthesises `attachment-NNNNNN.data`. |
| SearchCriteria.ImageExtensions | lostphotosfound/server.py:122-125 | The list holds exactly the dot-stripped extensions whose MIME type contains `image`, and is no longer than the table. |
| SearchCriteria.SplitJoin | lostphotosfound/server.py:126 | Joining with ` OR ` and splitting on it again gives back the extension list, when no extension contains a space. |
| SearchCriteria.Criteria | lostphotosfound/server.py:126-135 | The criteria end with `has:attachment filename:(` + joined list + `)`. They are exactly that when there is no user search; otherwise they are the user search, one space, then that. |
| SearchCriteria.CriteriaListRoundTrip | lostphotosfound/server.py:126-131 | The text between the parentheses splits back into exactly the extension list. |
| Engine.Sender | lostphotosfound/server.py:274-276 | The sender is never empty: the parsed From address when there is one, `unknown_sender` otherwise. |
| Engine.Save | lostphotosfound/server.py:154-223 | One save step. It never alters an existing file or the index, and moves `seq` as the name choice says. The name choice is the corrected `ChooseName`, so an empty decoded name is synthesised rather than raising (see Left out). The destination is the date prefix plus the sanitised chosen name, under the account folder and, with folders on, the sender folder. The cases are: no date gives an error and nothing written; an existing path gives no change; an undecodable payload gives an empty file at the new path, an error and no hash added; a new hash gives the path holding exactly the payload and the hash added; a known hash gives no file and no hash change. |
| Engine.SaveMatchesAsWritten | lostphotosfound/server.py:159-171 | Whenever the name choice as written does not raise, the save step leaves `seq` unchanged and names the file with the choice as written. So the save step is exactly the code's except on an empty decoded name. |
| Engine.SaveParts | lostphotosfound/server.py:278-290 | The part walk leaves the index alone and only adds hashes. |
| Engine.Process | lostphotosfound/server.py:240-293 | One message. Nothing is fetched exactly when the index is in use and holds the message, and then nothing changes. A non-multipart message changes nothing. The index gains only this message's id, and only when it is multipart and its walk succeeded. A multipart message whose walk succeeded is indexed. |
| Engine.ProcessAll | lostphotosfound/server.py:240-293 | The run loop only grows the index and fetches at most one body per hit. |
| Engine.SaveSound | lostphotosfound/server.py:203-223 | One save keeps the run promise `Sound`. Files that existed are untouched. A new file that is not the empty file of a failed decode holds a payload whose hash was new and is now stored. Every added hash is that of a new file. The failed path holds an empty new file. |
| Engine.SoundTrans | lostphotosfound/server.py:240-293 | Two stretches of a run that each keep `Sound` (the first without error) keep it together. This covers hashes that stay pairwise distinct across both. |
| Engine.SavePartsSound | lostphotosfound/server.py:278-290 | A whole part walk keeps `Sound`. |
| Engine.ProcessSound | lostphotosfound/server.py:250-293 | One message keeps `Sound`. |
| Engine.ProcessAllSound | lostphotosfound/server.py:240-293 | The whole message loop keeps `Sound`. |
| Engine.PipelineSound | lostphotosfound/server.py:238-293 | A whole run keeps `Sound`: no existing file is touched, and the files it writes have pairwise distinct, previously unseen hashes. |
| Engine.NeverFetchesIndexed | lostphotosfound/server.py:250-255 | Every fetched body is that of a search hit. With the index in use, none belongs to a message indexed when the run started. |
| Engine.IndexGainsOnlyMultipart | lostphotosfound/server.py:260-261 | Every id a run adds to the index is that of a multipart hit, so a non-multipart message is never marked processed. |
| Engine.CompletedRunIndexesMultipart | lostphotosfound/server.py:278-293 | A run that ends without error has indexed every multipart hit, whether or not the index is in use. |
| Engine.IndexedRunIsQuiet | lostphotosfound/server.py:250-252 | With the index in use and every multipart hit indexed, a run changes nothing, fails nowhere and fetches only non-multipart bodies. |
| Engine.RunTwice | lostphotosfound/server.py:240-293 | Re-running the loop over the same hits after a completed run changes nothing and fails nowhere. It fetches only bodies outside the index, which are those of non-multipart hits. |
| Engine.RerunChangesNothing | lostphotosfound/server.py:238-293 | The same for whole runs against an unchanged mailbox. |
| Engine.OneImageScenario | lostphotosfound/server.py:238-293 | From an empty store, one multipart message with one eligible image part whose name decodes to a non-empty string: one fetch, one file holding the payload, the payload hash stored, the message indexed. With the index in use, a second run fetches nothing and changes nothing. |
| Engine.WithoutIndexFetchesAll | lostphotosfound/server.py:250-255 | With the index not in use, nothing is skipped: a completed run fetches every hit's body, in search order. |
| Engine.Eligible | lostphotosfound/server.py:278-287 | The parts handed to the save step are exactly those that are not multipart containers and whose content type contains `image/`. |
| Engine.WalkSavesExactlyEligible | lostphotosfound/server.py:278-290 | The walk behaves as if the ineligible parts were absent: it saves the eligible parts, in walk order, until the first failure. |
| Engine.DispositionIgnored | lostphotosfound/server.py:282-284 | Content-Disposition changes neither eligibility nor the save step. |
| ServerModel.Server.constructor | lostphotosfound/server.py:38-80 | The server starts from the stored index, hash store and files, with the given settings and `seq` at 0 (lines 154-155). |
| ServerModel.Server.FilterMessages | lostphotosfound/server.py:121-138 | The loop over the type table builds exactly the criteria of `Criteria` for the image extensions, and returns what the search gives for them. |
| ServerModel.Server.PickName | lostphotosfound/server.py:154-171 | The name picked and the new counter are those of the corrected `ChooseName` and `NextCounter`. Nothing else changes. An empty decoded name is synthesised rather than raising (see Left out). |
| ServerModel.Server.SavePart | lostphotosfound/server.py:146-223 | The new state and the outcome are exactly those of `Engine.Save` on the old state, including its corrected handling of an empty decoded name (see Left out). |
| ServerModel.Server.WalkParts | lostphotosfound/server.py:278-290 | The part loop leaves exactly the state and error of `Engine.SaveParts`. |
| ServerModel.Server.ProcessMessage | lostphotosfound/server.py:240-293 | One turn of the message loop leaves exactly the state, error and fetches of `Engine.Process`. |
| ServerModel.Server.ProcessMessages | lostphotosfound/server.py:240-293 | The message loop leaves exactly the state, error and fetches of `Engine.ProcessAll`. |
| ServerModel.Server.LostPhotosFound | lostphotosfound/server.py:235-295 | A run leaves exactly the state of `Engine.Pipeline` and keeps `Sound` on the object's own fields. With the index in use, no fetched body belongs to a message indexed beforehand. |

## Left out

- The IMAP session is not modelled.
  - This covers connecting, logging in, folder selection, and closing and
    logging out (server.py:48-56, 83-114, 232-233).
  - `gmail_search` and the two `fetch` calls are the `mailbox` parameter.
  - A failed search becomes the `SearchRejected` error.
  - A failed `X-GM-MSGID` fetch (the exception at line 244) and a failed
    body fetch are not modelled: every hit is assumed to be fetchable.
  - The `fetched` log records only the RFC822 body fetches (line 255).
    The `X-GM-MSGID` fetch at line 242 happens for every hit and is not
    logged.
- `for data in msgdata` (line 257) is modelled as one body per hit. That
  is what a fetch of a single message returns.
- The shelve files are plain sets in memory.
  - Opening, syncing and closing them (lines 59-66, 228-231) is left out.
  - So is `_cleanup` (line 295), which the code runs only after a
    successful run.
- The filesystem is a map from abstract paths to bytes.
  - `os.path.expanduser`, `os.path.join`, `isdir` and `makedirs`
    (lines 189-198) are not modelled.
  - A path is the account, the optional sender folder and the file name.
    A sender or name containing `/` is not interpreted as nested
    directories.
- A failed write (the `Failed writing attachment` exception, lines
  215-219) is not modelled: writes always succeed.
- `hashlib.sha1`, `_charset_decoder`, `parsedate`, `parseaddr`,
  `message_from_bytes`, `walk`, `get_filename` and `get_payload` are not
  modelled; their results are inputs.
  - `_charset_decoder` is assumed to return a str. On that assumption
    rests the Finding below.
  - The date fields are natural numbers.
- The subject and From logging (lines 263-271) and every `print` are left
  out.
- `search=None` is the same as an empty search. The `label` setting only
  affects folder selection.
- lpf.py, the command-line and configuration front end, is not part of
  this model.
- Engine.Save: for an empty decoded file name it uses the corrected name
  choice. It writes `attachment-NNNNNN.data` and increments `seq`, where
  the code raises IndexError at server.py:168 and the run stops with no
  file created. Every other input is saved as written
  (`Engine.SaveMatchesAsWritten`).
- ServerModel.Server.PickName: the same substitution. For an empty decoded
  name it synthesises a name and increments `counter` instead of raising.
- ServerModel.Server.SavePart: the same substitution, inherited from
  `Engine.Save`. The IndexError path of server.py:168 is not modelled.
- SearchCriteria.CriteriaListRoundTrip: the extension list is recovered
  only when no extension contains a space, which holds for the standard
  MIME table. Parsing the user search back off the criteria is not stated.

## Findings

| source | as written | input that shows it | evidently intended | confidence | as-written member | corrected member |
|---|---|---|---|---|---|---|
| lostphotosfound/server.py:168-171 | The guard indexes the decoded name twice. On a str, the first index raises IndexError for an empty name. Otherwise it gives a one-character string, which is always truthy and never None, so the synthesised-name branch can never be taken. | A part whose declared filename decodes to the empty string: the save raises IndexError instead of naming the file `attachment-000000.data`. | An empty (unusable) decoded name gets a synthesised `attachment-%06d.data` name, and `seq` is incremented. | not executed; assumes `_charset_decoder` returns a str | FilenamePolicy.ChooseNameAsWritten, FilenamePolicy.AsWrittenNeverSynthesizes, FilenamePolicy.EmptyNameAsWritten | FilenamePolicy.ChooseName |
