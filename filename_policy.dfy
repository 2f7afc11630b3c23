/** How `Server._save_part` names an attachment: the choice between the
    declared filename, the `name=` text of the Content-Type header and a
    synthesised `attachment-NNNNNN.data`; the punctuation strip; and the
    unpadded `Y-M-D_H-M-S_` date prefix. */
module FilenamePolicy {
  import opened Text

  /** The characters the sanitiser deletes. Parentheses, dots, dashes,
      underscores and spaces are not among them. */
  const Punctuation: set<char> :=
    {'!', '"', '#', '$', '&', '\'', '*', '+', '/', ';', '<', '>', '?',
     '[', '\\', ']', '^', '`', '{', '|', '}', '~'}

  /** What an attachment is called when `get_filename()` finds nothing. */
  const UnnamedPlaceholder: string := "__unnamed__"

  /** The calendar fields 0 to 5 of the tuple `parsedate` returns. */
  datatype DateTime = DateTime(year: nat, month: nat, day: nat, hour: nat, minute: nat, second: nat)

  /** Where the name came from (the tagged result of the name choice). */
  datatype NameChoice =
    | Declared(name: string)
    | FromContentType(name: string)
    | Synthesized(name: string)

  function Sanitize(name: string): string {
    DeleteChars(name, Punctuation)
  }

  /** Sanitising deletes exactly the punctuation set: no such character is
      left, every other character is kept as often as it occurred, in its
      original order. */
  lemma SanitizeSpec(name: string)
    ensures forall i :: 0 <= i < |Sanitize(name)| ==> Sanitize(name)[i] !in Punctuation
    ensures forall c :: c !in Punctuation ==> multiset(Sanitize(name))[c] == multiset(name)[c]
    ensures IsSubsequence(Sanitize(name), name)
  {
    DeleteCharsKeeps(name, Punctuation);
    DeleteCharsInOrder(name, Punctuation);
  }

  /** Dots, dashes, underscores, spaces and parentheses are kept: each
      occurs in the sanitised name exactly as often as in the original. */
  lemma SanitizeKeepsSeparators(name: string)
    ensures forall c :: c in {'(', ')', '.', '-', '_', ' '} ==>
      multiset(Sanitize(name))[c] == multiset(name)[c]
  {
    SanitizeSpec(name);
  }

  /** One date field followed by its separator. */
  function Field(n: nat, sep: char): string {
    NatToString(n) + [sep]
  }

  /** `'%s-%s-%s_%s-%s-%s_' % header_date[0:6]`. */
  function DatePrefix(d: DateTime): string {
    Field(d.year, '-') + Field(d.month, '-') + Field(d.day, '_') +
    Field(d.hour, '-') + Field(d.minute, '-') + Field(d.second, '_')
  }

  /** The name of the file written for an attachment. */
  function FinalName(d: DateTime, name: string): string {
    DatePrefix(d) + Sanitize(name)
  }

  /** Reads one date field and its separator off the front of s. */
  function ParseField(s: string, sep: char): Option<(nat, string)> {
    match ParseNat(s)
    case None => None
    case Some(p) => if p.1 != [] && p.1[0] == sep then Some((p.0, p.1[1..])) else None
  }

  /** Reads a date prefix off the front of a file name. */
  function ParseDatePrefix(s: string): Option<(DateTime, string)> {
    match ParseField(s, '-')
    case None => None
    case Some(y) =>
      match ParseField(y.1, '-')
      case None => None
      case Some(mo) =>
        match ParseField(mo.1, '_')
        case None => None
        case Some(d) =>
          match ParseField(d.1, '-')
          case None => None
          case Some(h) =>
            match ParseField(h.1, '-')
            case None => None
            case Some(mi) =>
              match ParseField(mi.1, '_')
              case None => None
              case Some(s) => Some((DateTime(y.0, mo.0, d.0, h.0, mi.0, s.0), s.1))
  }

  lemma ParseFieldOf(n: nat, sep: char, rest: string)
    requires !IsDigit(sep)
    ensures ParseField(Field(n, sep) + rest, sep) == Some((n, rest))
  {
    assert Field(n, sep) + rest == NatToString(n) + ([sep] + rest);
    ParseNatToString(n, [sep] + rest);
    assert ([sep] + rest)[1..] == rest;
  }

  /** The date prefix can be read back off any file name that carries it. */
  lemma DatePrefixRoundTrip(d: DateTime, rest: string)
    ensures ParseDatePrefix(DatePrefix(d) + rest) == Some((d, rest))
  {
    var r5 := Field(d.second, '_') + rest;
    var r4 := Field(d.minute, '-') + r5;
    var r3 := Field(d.hour, '-') + r4;
    var r2 := Field(d.day, '_') + r3;
    var r1 := Field(d.month, '-') + r2;
    assert DatePrefix(d) + rest == Field(d.year, '-') + r1;
    ParseFieldOf(d.year, '-', r1);
    ParseFieldOf(d.month, '-', r2);
    ParseFieldOf(d.day, '_', r3);
    ParseFieldOf(d.hour, '-', r4);
    ParseFieldOf(d.minute, '-', r5);
    ParseFieldOf(d.second, '_', rest);
  }

  /** Two attachments get the same file name only when their messages carry
      the same date and their names sanitise to the same text. */
  lemma FinalNameInjective(d1: DateTime, n1: string, d2: DateTime, n2: string)
    requires FinalName(d1, n1) == FinalName(d2, n2)
    ensures d1 == d2 && Sanitize(n1) == Sanitize(n2)
  {
    DatePrefixRoundTrip(d1, Sanitize(n1));
    DatePrefixRoundTrip(d2, Sanitize(n2));
  }

  /** `'attachment-%06d.data' % (self.seq)`. */
  function SynthesizedName(counter: nat): string {
    "attachment-" + ZeroPad(counter, 6) + ".data"
  }

  /** Distinct counter values give distinct synthesised names. */
  lemma SynthesizedNameInjective(a: nat, b: nat)
    requires SynthesizedName(a) == SynthesizedName(b)
    ensures a == b
  {
    var pa, pb := ZeroPad(a, 6), ZeroPad(b, 6);
    assert |pa| == |pb|;
    assert pa == SynthesizedName(a)[11..11 + |pa|];
    assert pb == SynthesizedName(b)[11..11 + |pb|];
    ZeroPadInjective(a, b, 6);
  }

  lemma DigitNotPunctuation(c: char)
    requires IsDigit(c)
    ensures c !in Punctuation
  {
  }

  /** The fixed text around the counter holds no punctuation. */
  lemma FixedPartsFree()
    ensures Free("attachment-", Punctuation) && Free(".data", Punctuation)
  {
  }

  /** A synthesised name contains no punctuation, so the sanitiser keeps it whole. */
  lemma SynthesizedNameSurvivesSanitize(counter: nat)
    ensures Sanitize(SynthesizedName(counter)) == SynthesizedName(counter)
  {
    var head, p, tail := "attachment-", ZeroPad(counter, 6), ".data";
    FixedPartsFree();
    forall i | 0 <= i < |p| ensures p[i] !in Punctuation {
      DigitNotPunctuation(p[i]);
    }
    FreeConcat(head, p, Punctuation);
    FreeConcat(head + p, tail, Punctuation);
    assert SynthesizedName(counter) == head + p + tail;
  }

  /** `part.get('Content-Type').split('name=')[-1].replace('"', '')`. */
  function ContentTypeName(header: string): string {
    DeleteChars(AfterLast(header, "name="), {'"'})
  }

  /** The Content-Type fallback takes the text after the last `name=` and
      removes every double quote from it. */
  lemma ContentTypeNameSpec(header: string)
    ensures var tail := AfterLast(header, "name=");
      && tail == header[|header| - |tail|..]
      && !Contains(tail, "name=")
      && (Contains(header, "name=") ==> EndsWith(header[..|header| - |tail|], "name="))
      && (!Contains(header, "name=") ==> tail == header)
      && ContentTypeName(header) == DeleteChars(tail, {'"'})
    ensures forall i :: 0 <= i < |ContentTypeName(header)| ==> ContentTypeName(header)[i] != '"'
  {
    AfterLastSpec(header, "name=");
  }

  /** The name choice of lines 159-171, with the fallback for an empty
      decoded name that the code evidently intends: a name containing the
      text `None` anywhere is replaced by the Content-Type name; an empty
      name is replaced by a synthesised one; any other name is kept. */
  function ChooseName(decoded: string, contentTypeHeader: string, counter: nat): (c: NameChoice)
    ensures c.FromContentType? <==> Contains(decoded, "None")
    ensures c.Synthesized? <==> !Contains(decoded, "None") && decoded == []
    ensures c.Declared? ==> c.name == decoded && decoded != []
    ensures c.FromContentType? ==> c.name == ContentTypeName(contentTypeHeader)
    ensures c.Synthesized? ==> c.name == SynthesizedName(counter)
  {
    if Contains(decoded, "None") then FromContentType(ContentTypeName(contentTypeHeader))
    else if decoded == [] then Synthesized(SynthesizedName(counter))
    else Declared(decoded)
  }

  /** `self.seq` after the name choice: one more exactly when a name was
      synthesised. */
  function NextCounter(c: NameChoice, counter: nat): (n: nat)
    ensures n == counter || n == counter + 1
    ensures n == counter + 1 <==> c.Synthesized?
  {
    if c.Synthesized? then counter + 1 else counter
  }

  /** Python truthiness of a string. */
  predicate Truthy(s: string) {
    s != []
  }

  /** The name choice exactly as written. On a str, `header_filename[0]`
      raises IndexError when the name is empty (None here), and otherwise
      `header_filename[0][0]` is its first character as a one-character
      string, which is always truthy and never None. */
  function ChooseNameAsWritten(decoded: string, contentTypeHeader: string, counter: nat): Option<NameChoice> {
    if Contains(decoded, "None") then Some(FromContentType(ContentTypeName(contentTypeHeader)))
    else if decoded == [] then None
    else
      var first := [decoded[0]][..1];
      if !Truthy(first) then Some(Synthesized(SynthesizedName(counter)))
      else Some(Declared(decoded))
  }

  /** As written, the synthesised branch is dead: no input reaches it, an
      empty decoded name raises instead, and every other input gets the
      corrected choice. */
  lemma AsWrittenNeverSynthesizes(decoded: string, contentTypeHeader: string, counter: nat)
    ensures var r := ChooseNameAsWritten(decoded, contentTypeHeader, counter);
      && (r.None? <==> decoded == [] && !Contains(decoded, "None"))
      && (r.Some? ==> !r.value.Synthesized? && r.value == ChooseName(decoded, contentTypeHeader, counter))
  {
    if decoded != [] && !Contains(decoded, "None") {
      assert Truthy([decoded[0]][..1]);
    }
  }

  /** The input that shows it: an empty declared filename. */
  lemma EmptyNameAsWritten(contentTypeHeader: string, counter: nat)
    ensures ChooseNameAsWritten("", contentTypeHeader, counter).None?
    ensures ChooseName("", contentTypeHeader, counter) == Synthesized(SynthesizedName(counter))
  {
    assert !Contains("", "None");
  }
}
