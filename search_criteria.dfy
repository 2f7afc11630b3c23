/** The Gmail search string `Server._filter_messages` builds: every file
    extension whose MIME type mentions `image`, dots removed, joined by ` OR `
    inside `has:attachment filename:(...)`, preceded by the user's own search
    and a space when there is one. */
module SearchCriteria {
  import opened Text

  const Separator: string := " OR "

  /** An entry of `mimetypes.types_map`: an extension such as `.jpg` and
      its MIME type. */
  type TypeEntry = (string, string)

  predicate IsImageType(entry: TypeEntry) {
    Contains(entry.1, "image")
  }

  function StripDots(ext: string): string {
    DeleteChars(ext, {'.'})
  }

  /** The extensions the loop of lines 123-125 appends, in table order. */
  function ImageExtensions(table: seq<TypeEntry>): (r: seq<string>)
    ensures |r| <= |table|
    ensures forall e :: e in r <==>
      exists i :: 0 <= i < |table| && IsImageType(table[i]) && e == StripDots(table[i].0)
  {
    if table == [] then []
    else
      var init, last := table[..|table| - 1], table[|table| - 1];
      var r := ImageExtensions(init) + (if IsImageType(last) then [StripDots(last.0)] else []);
      assert forall i :: 0 <= i < |init| ==> init[i] == table[i];
      r
  }

  /** Python's `sep.join(parts)`. */
  function Join(parts: seq<string>, sep: string): string {
    if parts == [] then []
    else if |parts| == 1 then parts[0]
    else parts[0] + sep + Join(parts[1..], sep)
  }

  /** Python's `s.split(sep)`. */
  function Split(s: string, sep: string): seq<string>
    requires sep != []
    decreases |s|
  {
    match FindFrom(s, sep, 0)
    case None => [s]
    case Some(i) => [s[..i]] + Split(s[i + |sep|..], sep)
  }

  /** No part contains the first character of the separator. */
  predicate Separable(parts: seq<string>, sep: string)
    requires sep != []
  {
    forall k, j :: 0 <= k < |parts| && 0 <= j < |parts[k]| ==> parts[k][j] != sep[0]
  }

  /** A match with none before it is the one FindFrom finds. */
  lemma FirstMatch(s: string, t: string, m: nat)
    requires MatchAt(s, t, m) && forall j :: 0 <= j < m ==> !MatchAt(s, t, j)
    ensures FindFrom(s, t, 0) == Some(m)
  {
  }

  lemma NoMatchIn(s: string, sep: string)
    requires sep != [] && forall j :: 0 <= j < |s| ==> s[j] != sep[0]
    ensures FindFrom(s, sep, 0).None?
  {
    forall j | 0 <= j && j + |sep| <= |s| ensures !MatchAt(s, sep, j) {
      assert s[j..j + |sep|][0] == s[j];
    }
  }

  lemma FirstMatchAfter(head: string, sep: string, rest: string)
    requires sep != [] && forall j :: 0 <= j < |head| ==> head[j] != sep[0]
    ensures FindFrom(head + sep + rest, sep, 0) == Some(|head|)
  {
    var s := head + sep + rest;
    assert s[|head|..|head| + |sep|] == sep;
    forall j | 0 <= j < |head| ensures !MatchAt(s, sep, j) {
      assert s[j..j + |sep|][0] == s[j] == head[j];
    }
    FirstMatch(s, sep, |head|);
  }

  /** Splitting the joined extension list gives back the list, as long as no
      extension contains a space (the first character of ` OR `). */
  lemma {:induction false} SplitJoin(parts: seq<string>, sep: string)
    requires sep != [] && parts != [] && Separable(parts, sep)
    ensures Split(Join(parts, sep), sep) == parts
  {
    if |parts| == 1 {
      NoMatchIn(parts[0], sep);
    } else {
      var rest := Join(parts[1..], sep);
      FirstMatchAfter(parts[0], sep, rest);
      var s := parts[0] + sep + rest;
      assert s[..|parts[0]|] == parts[0];
      assert s[|parts[0]| + |sep|..] == rest;
      assert Separable(parts[1..], sep) by {
        forall k, j | 0 <= k < |parts[1..]| && 0 <= j < |parts[1..][k]|
          ensures parts[1..][k][j] != sep[0]
        {
          assert parts[1..][k] == parts[k + 1];
        }
      }
      SplitJoin(parts[1..], sep);
    }
  }

  const Key: string := "has:attachment filename:("

  /** The criteria string of lines 126-135 for a user search (empty when the
      user gave none) and a list of extensions: the user search and one space
      when there is a search, then `has:attachment filename:(`, the joined
      list and `)`. */
  function Criteria(search: string, extensions: seq<string>): (c: string)
    ensures var inner := Join(extensions, Separator);
      && EndsWith(c, Key + inner + ")")
      && (search == [] ==> c == Key + inner + ")")
      && (search != [] ==> StartsWith(c, search + " ") && c[|search| + 1..] == Key + inner + ")")
  {
    var base := Key + Join(extensions, Separator) + ")";
    if search != [] then search + " " + base else base
  }

  /** The text inside the parentheses splits on ` OR ` back into exactly the
      extension list, when no extension contains a space. */
  lemma CriteriaListRoundTrip(search: string, extensions: seq<string>)
    requires extensions != [] && Separable(extensions, Separator)
    ensures var c := Criteria(search, extensions);
      var inner := Join(extensions, Separator);
      |inner| + 1 <= |c| && Split(c[|c| - |inner| - 1..|c| - 1], Separator) == extensions
  {
    var c := Criteria(search, extensions);
    var inner := Join(extensions, Separator);
    assert c[|c| - |inner| - 1..|c| - 1] == inner;
    SplitJoin(extensions, Separator);
  }
}
