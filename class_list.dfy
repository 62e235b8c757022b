/**
 * One row of the class list (`extractDataFromRow` in content.js), with the DOM
 * abstracted away: a row is the profile image (its `src` and `alt`), if the
 * row has one, and the `innerHTML` of its details cell, if it has one.  The
 * record built from it is a JavaScript object, here a map from property
 * names to values.
 */
module ClassList {
  import opened Wrappers
  import opened JsString
  import opened JsRegex

  /** The property values a record can hold. `Undefined` is a property set to `undefined`. */
  datatype Value = Str(s: string) | Bool(b: bool) | List(items: seq<string>) | Undefined | Null

  type Record = map<string, Value>

  /** Reading a property: a missing one reads as `undefined`. */
  function Get(d: Record, key: string): Value {
    if key in d then d[key] else Undefined
  }

  /** JavaScript truthiness of a value (an array is truthy even when empty). */
  predicate Truthy(v: Value) {
    match v
    case Str(s) => s != ""
    case Bool(b) => b
    case List(_) => true
    case Undefined => false
    case Null => false
  }

  /** A non-empty string: what `data.X && typeof data.X === 'string'` accepts. */
  predicate IsNonEmptyStr(v: Value) {
    v.Str? && v.s != ""
  }

  datatype Image = Image(src: string, alt: string)

  datatype Row = Row(image: Option<Image>, details: Option<string>)

  /**
   * The one error extraction can raise: an `EmailAddress` value mentions
   * `mailto:` but holds no `<a href="mailto:...">` link, so indexing the
   * failed match throws a TypeError.
   */
  datatype RowError = MailtoLinkMissing(value: string)

  const LineBreak := "<br>"
  const EmailKey := "EmailAddress"
  const Mailto := "mailto:"

  /**
   * A plain object's `__proto__` is an accessor inherited from Object.prototype;
   * assigning a string to it changes nothing.
   */
  const ProtoKey := "__proto__"

  /**
   * `data[key] = value` for a string `value`: the property `key` holds the
   * string and every other property keeps its value, except that an
   * assignment to `__proto__` leaves the object as it was.
   */
  function Store(d: Record, key: string, value: string): (r: Record)
    ensures key == ProtoKey ==> r == d
    ensures key != ProtoKey ==>
              r.Keys == d.Keys + {key} && r[key] == Str(value)
              && forall k :: k in d && k != key ==> r[k] == d[k]
  {
    if key == ProtoKey then d else d[key := Str(value)]
  }

  // ---------------------------------------------------------------------------
  // Image link and student ID
  // ---------------------------------------------------------------------------

  /** The properties the image element contributes: its link and the first number in its alt text. */
  function ImageFields(image: Option<Image>): (d: Record)
    ensures d.Keys <= {"imageLink", "studentId"}
    ensures "imageLink" in d <==> image.Some?
    ensures image.Some? ==> d["imageLink"] == Str(image.value.src)
    ensures "studentId" in d <==>
              image.Some? && exists k :: 0 <= k < |image.value.alt| && IsDigit(image.value.alt[k])
  {
    match image
    case None => map[]
    case Some(img) =>
      ExecDigitsWhenDigit(img.alt);
      var d := map["imageLink" := Str(img.src)];
      match Exec(Digits, img.alt)
      case None => d
      case Some(m) => d["studentId" := Str(Capture(Digits, img.alt, m, 0))]
  }

  /** The student ID is the first maximal run of decimal digits in the alt text. */
  lemma StudentIdIsFirstDigitRun(img: Image, i: nat, e: nat)
    requires i < e <= |img.alt|
    requires forall k :: 0 <= k < i ==> !IsDigit(img.alt[k])
    requires forall k :: i <= k < e ==> IsDigit(img.alt[k])
    requires e == |img.alt| || !IsDigit(img.alt[e])
    ensures "studentId" in ImageFields(Some(img))
    ensures ImageFields(Some(img))["studentId"] == Str(img.alt[i..e])
  {
    var alt := img.alt;
    assert MatchesAt(Digits, alt, i, [Span(i, e)]);
    forall i', g' | 0 <= i' < i
      ensures !MatchesAt(Digits, alt, i', g')
    {
      if MatchesAt(Digits, alt, i', g') {
        DigitsMatchStartsAtDigit(alt, i', g');
      }
    }
    ExecFinds(Digits, alt, i, [Span(i, e)]);
  }

  // ---------------------------------------------------------------------------
  // The details cell
  // ---------------------------------------------------------------------------

  /** What a piece contributes: an entry, nothing, or the error. */
  type Contribution = Result<Option<(string, string)>, RowError>

  /**
   * The entry for a trimmed key and value: an `EmailAddress` value that
   * mentions `mailto:` is replaced by the address inside its first
   * `<a href="mailto:...">` link, and is an error when there is no such link.
   */
  function EntryFor(key: string, value: string): (r: Contribution)
    ensures r.Ok? ==> r.value.Some? && r.value.value.0 == key
    ensures r.Err? ==> r.error == MailtoLinkMissing(value)
    ensures r.Err? <==> key == EmailKey && Includes(value, Mailto) && Exec(MailtoLink, value).None?
    ensures key != EmailKey || !Includes(value, Mailto) ==> r == Ok(Some((key, value)))
    ensures key == EmailKey && Includes(value, Mailto) && r.Ok? ==>
              exists j, q :: FirstMailtoLink(value, j, q) && r.value.value.1 == value[j + |MailtoOpen|..q]
  {
    if key == EmailKey && Includes(value, Mailto) then
      match Exec(MailtoLink, value)
      case None => Err(MailtoLinkMissing(value))
      case Some(link) =>
        MailtoLinkOfMatch(value);
        Ok(Some((key, Capture(MailtoLink, value, link, 0))))
    else
      Ok(Some((key, value)))
  }

  /** An e-mail value holding a link is unwrapped to the address in its first link. */
  lemma EmailLinkUnwrapped(value: string, j: nat, q: nat)
    requires FirstMailtoLink(value, j, q)
    ensures EntryFor(EmailKey, value) == Ok(Some((EmailKey, value[j + |MailtoOpen|..q])))
  {
    MailtoLinkFound(value, j, q);
    assert Includes(value, Mailto) by {
      // `<a href="mailto:` ends with `mailto:`, which starts 9 characters in.
      assert value[j..j + |MailtoOpen|][9..] == value[j + 9..j + |MailtoOpen|];
      assert OccursAt(value, Mailto, j + 9);
    }
  }

  /** An e-mail value that mentions `mailto:` but holds no link is the error. */
  lemma EmailWithoutLinkFails(value: string)
    requires Includes(value, Mailto)
    requires forall j, q :: !MailtoLinkAt(value, j, q)
    ensures EntryFor(EmailKey, value) == Err(MailtoLinkMissing(value))
  {
    MailtoLinkOfMatch(value);
  }

  /**
   * What one `<br>`-separated piece of the details cell contributes: nothing
   * when `/<b>([^:]+): <\/b>(.*)/` does not match it, otherwise the entry for
   * the trimmed key and the trimmed value.  The only error it raises names a
   * value that mentions `mailto:` without holding a link.
   */
  function DetailEntry(detail: string): (r: Contribution)
    ensures r.Err? ==> Includes(r.error.value, Mailto) && Exec(MailtoLink, r.error.value).None?
  {
    match Exec(DetailLine, detail)
    case None => Ok(None)
    case Some(m) => EntryFor(Trim(Capture(DetailLine, detail, m, 0)), Trim(Capture(DetailLine, detail, m, 1)))
  }

  /**
   * A piece contributes nothing exactly when the detail pattern matches
   * nowhere in it, and a key it sets holds no colon and is trimmed.
   */
  lemma DetailEntryMeaning(detail: string)
    ensures DetailEntry(detail) == Ok(None) <==> forall i, g :: !MatchesAt(DetailLine, detail, i, g)
    ensures var r := DetailEntry(detail);
            r.Ok? && r.value.Some? ==> ':' !in r.value.value.0 && IsTrimmed(r.value.value.0)
  {
    match Exec(DetailLine, detail)
    case None =>
    case Some(m) =>
      var group := Capture(DetailLine, detail, m, 0);
      assert ':' !in group by {
        assert forall k :: 0 <= k < |group| ==> group[k] != ':';
      }
      TrimAvoids(group, ':');
      TrimMeaning(group);
  }

  /** A piece in which the detail pattern matches contributes the entry for its trimmed groups. */
  lemma DetailEntryOfMatch(detail: string)
    requires Exec(DetailLine, detail).Some?
    ensures var m := Exec(DetailLine, detail).value;
            DetailEntry(detail)
            == EntryFor(Trim(Capture(DetailLine, detail, m, 0)), Trim(Capture(DetailLine, detail, m, 1)))
  {
  }

  /**
   * A piece whose first `<b>` opens `<b>KEY: </b>VALUE`: KEY runs up to the
   * first `: </b>` and holds no colon, VALUE runs to the end of the line; the
   * piece contributes the entry for both, trimmed.
   */
  lemma BoldLineEntry(s: string, i: nat, c: nat, e: nat)
    requires FirstBoldLine(s, i, c, e)
    ensures DetailEntry(s) == EntryFor(Trim(s[i + |BoldOpen|..c]), Trim(s[c + |BoldClose|..e]))
  {
    DetailLineFound(s, i, c, e);
    var m := Exec(DetailLine, s).value;
    assert Capture(DetailLine, s, m, 0) == s[i + |BoldOpen|..c];
    assert Capture(DetailLine, s, m, 1) == s[c + |BoldClose|..e];
  }

  /** The contributions of the pieces, in order. */
  function Contributions(details: seq<string>): (cs: seq<Contribution>)
    ensures |cs| == |details|
    ensures forall n :: 0 <= n < |details| ==> cs[n] == DetailEntry(details[n])
  {
    seq(|details|, n requires 0 <= n < |details| => DetailEntry(details[n]))
  }

  /** One piece's contribution applied to the record: `data[key] = value`, or the error thrown. */
  function ApplyOne(d: Record, c: Contribution): Result<Record, RowError> {
    match c
    case Err(e) => Err(e)
    case Ok(None) => Ok(d)
    case Ok(Some(entry)) => Ok(Store(d, entry.0, entry.1))
  }

  /** The contributions applied in order, stopping at the first error: the `forEach` over the pieces. */
  function ApplyDetails(d: Record, cs: seq<Contribution>): Result<Record, RowError>
    decreases |cs|
  {
    if cs == [] then Ok(d)
    else
      match ApplyDetails(d, cs[..|cs| - 1])
      case Err(e) => Err(e)
      case Ok(d') => ApplyOne(d', cs[|cs| - 1])
  }

  /** One more contribution. */
  lemma ApplyDetailsStep(d: Record, cs: seq<Contribution>, n: nat, d': Record)
    requires n < |cs| && ApplyDetails(d, cs[..n]) == Ok(d')
    ensures ApplyDetails(d, cs[..n + 1]) == ApplyOne(d', cs[n])
  {
    assert cs[..n + 1][..n] == cs[..n];
  }

  /** Once a piece raises the error, the rest of the pieces do not matter. */
  lemma {:induction false} ApplyDetailsErrorPersists(d: Record, cs: seq<Contribution>, n: nat)
    requires n <= |cs|
    requires ApplyDetails(d, cs[..n]).Err?
    ensures ApplyDetails(d, cs) == ApplyDetails(d, cs[..n])
    decreases |cs| - n
  {
    if n < |cs| {
      assert cs[..|cs| - 1][..n] == cs[..n];
      ApplyDetailsErrorPersists(d, cs[..|cs| - 1], n);
    } else {
      assert cs[..n] == cs;
    }
  }

  /** A piece that throws after the earlier pieces succeeded decides the outcome. */
  lemma ApplyDetailsStopsAt(d: Record, cs: seq<Contribution>, n: nat, d': Record)
    requires n < |cs| && ApplyDetails(d, cs[..n]) == Ok(d') && cs[n].Err?
    ensures ApplyDetails(d, cs) == Err(cs[n].error)
  {
    ApplyDetailsStep(d, cs, n, d');
    ApplyDetailsErrorPersists(d, cs, n + 1);
    assert cs[..|cs|] == cs;
  }

  /** Applying the pieces fails exactly when one of them raises the error. */
  lemma {:induction false} ApplyDetailsFailsIff(d: Record, cs: seq<Contribution>)
    ensures ApplyDetails(d, cs).Err? <==> exists n :: 0 <= n < |cs| && cs[n].Err?
    decreases |cs|
  {
    if cs != [] {
      var init := cs[..|cs| - 1];
      ApplyDetailsFailsIff(d, init);
      assert forall n :: 0 <= n < |init| ==> init[n] == cs[n];
    }
  }

  /** An error of the whole loop is the error of one of the pieces. */
  lemma {:induction false} ApplyDetailsErrorFrom(d: Record, cs: seq<Contribution>)
    ensures ApplyDetails(d, cs).Err? ==>
              exists n :: 0 <= n < |cs| && cs[n].Err? && cs[n].error == ApplyDetails(d, cs).error
    decreases |cs|
  {
    if cs != [] {
      var init := cs[..|cs| - 1];
      ApplyDetailsErrorFrom(d, init);
      assert forall n :: 0 <= n < |init| ==> init[n] == cs[n];
    }
  }

  /** The value of the last contribution that sets `key`, if any. */
  function LastValue(cs: seq<Contribution>, key: string): Option<string>
    decreases |cs|
  {
    if cs == [] then None
    else
      var last := cs[|cs| - 1];
      if last.Ok? && last.value.Some? && last.value.value.0 == key then Some(last.value.value.1)
      else LastValue(cs[..|cs| - 1], key)
  }

  /**
   * When no piece fails: a key that some piece sets holds the value of the
   * last piece that sets it; every other key (and `__proto__`) keeps what it had.
   */
  lemma {:induction false} LastPieceWins(d: Record, cs: seq<Contribution>, key: string)
    requires ApplyDetails(d, cs).Ok?
    ensures key != ProtoKey && LastValue(cs, key).Some? ==>
              key in ApplyDetails(d, cs).value
              && ApplyDetails(d, cs).value[key] == Str(LastValue(cs, key).value)
    ensures key == ProtoKey || LastValue(cs, key).None? ==>
              (key in ApplyDetails(d, cs).value <==> key in d)
              && Get(ApplyDetails(d, cs).value, key) == Get(d, key)
    decreases |cs|
  {
    if cs != [] {
      LastPieceWins(d, cs[..|cs| - 1], key);
    }
  }

  // ---------------------------------------------------------------------------
  // The normalisers, applied in this order after the details
  // ---------------------------------------------------------------------------

  /** A non-empty `Name` is split on commas into `Last` and `First`. */
  function SplitName(d: Record): (r: Record)
    ensures !IsNonEmptyStr(Get(d, "Name")) ==> r == d
    ensures IsNonEmptyStr(Get(d, "Name")) ==>
              r.Keys == d.Keys + {"Last", "First"} && r["Last"].Str?
              && forall k :: k in d && k != "Last" && k != "First" ==> r[k] == d[k]
  {
    var name := Get(d, "Name");
    if IsNonEmptyStr(name) then
      var nameParts := Split(name.s, ",");
      d["Last" := Str(Trim(nameParts[0]))]["First" := if |nameParts| > 1 then Str(Trim(nameParts[1])) else Undefined]
    else d
  }

  /** With a comma: `Last` is the trimmed text before the first comma, `First` the trimmed text up to the next one. */
  lemma NameWithComma(d: Record, last: string, first: string, rest: string)
    requires Get(d, "Name") == Str(last + "," + first + rest)
    requires ',' !in last && ',' !in first
    requires rest == [] || rest[0] == ','
    ensures SplitName(d)["Last"] == Str(Trim(last))
    ensures SplitName(d)["First"] == Str(Trim(first))
    ensures SplitName(d)["Name"] == Get(d, "Name")
  {
    var parts := Split(last + "," + first + rest, ",");
    assert |parts| > 1 && parts[0] == last && parts[1] == first by {
      SplitFirstTwoPieces(last, first, rest, ',');
    }
  }

  /** Without a comma: `Last` is the whole trimmed name and `First` is `undefined`. */
  lemma NameWithoutComma(d: Record, name: string)
    requires Get(d, "Name") == Str(name) && name != ""
    requires ',' !in name
    ensures SplitName(d)["Last"] == Str(Trim(name))
    ensures SplitName(d)["First"] == Undefined
    ensures SplitName(d)["Name"] == Get(d, "Name")
  {
    SplitAtFirstChar(name, "", ',');
    assert name + "" == name;
  }

  /** A truthy `Privacy` becomes a boolean, true exactly for `Y`; any other `Privacy` is left alone. */
  function CoercePrivacy(d: Record): (r: Record)
    ensures r.Keys == d.Keys
    ensures forall k :: k in d && k != "Privacy" ==> r[k] == d[k]
    ensures !Truthy(Get(d, "Privacy")) ==> r == d
    ensures Truthy(Get(d, "Privacy")) ==>
              r["Privacy"].Bool? && (r["Privacy"].b <==> d["Privacy"] == Str("Y"))
  {
    if Truthy(Get(d, "Privacy")) then d["Privacy" := Bool(Get(d, "Privacy") == Str("Y"))] else d
  }

  /** `parts.map(p => p.trim())`. */
  function TrimEach(parts: seq<string>): (r: seq<string>)
    ensures |r| == |parts|
    ensures forall n :: 0 <= n < |r| ==> r[n] == Trim(parts[n])
  {
    seq(|parts|, n requires 0 <= n < |parts| => Trim(parts[n]))
  }

  /** Trimmed pieces that held no `c` hold no `c`, and are trimmed. */
  lemma TrimmedAvoids(parts: seq<string>, c: char)
    requires forall n :: 0 <= n < |parts| ==> !Includes(parts[n], [c])
    ensures forall n :: 0 <= n < |parts| ==> !Includes(Trim(parts[n]), [c]) && IsTrimmed(Trim(parts[n]))
  {
    forall n | 0 <= n < |parts|
      ensures !Includes(Trim(parts[n]), [c]) && IsTrimmed(Trim(parts[n]))
    {
      SingleCharOccurs(parts[n], c);
      SingleCharOccurs(Trim(parts[n]), c);
      TrimAvoids(parts[n], c);
      TrimMeaning(parts[n]);
    }
  }

  /**
   * A non-empty `Advisor` becomes the list of its `;`-separated parts, each
   * trimmed: one more than there are semicolons, none holding one.
   */
  function ListAdvisors(d: Record): (r: Record)
    ensures r.Keys == d.Keys
    ensures forall k :: k in d && k != "Advisor" ==> r[k] == d[k]
    ensures !IsNonEmptyStr(Get(d, "Advisor")) ==> r == d
    ensures IsNonEmptyStr(Get(d, "Advisor")) ==>
              var advisor, parts := d["Advisor"].s, Split(d["Advisor"].s, ";");
              r["Advisor"].List? && |r["Advisor"].items| == |parts| == multiset(advisor)[';'] + 1
              && Join(parts, ";") == advisor
              && forall n :: 0 <= n < |parts| ==>
                   r["Advisor"].items[n] == Trim(parts[n]) && IsTrimmed(r["Advisor"].items[n])
                   && !Includes(r["Advisor"].items[n], ";")
  {
    var advisor := Get(d, "Advisor");
    if IsNonEmptyStr(advisor) then
      var parts := Split(advisor.s, ";");
      SplitCharCount(advisor.s, ';');
      SplitPiecesAvoidSeparator(advisor.s, ";");
      TrimmedAvoids(parts, ';');
      d["Advisor" := List(TrimEach(parts))]
    else d
  }

  /** The title property that goes with a code field. */
  const TitleSuffix := " Title"

  function TitleKey(field: string): string {
    field + TitleSuffix
  }

  /**
   * A non-empty `field` in which `/(\w+) \(([^)]+)\)/` matches keeps only the
   * code and `field Title` gets the title; otherwise nothing changes.
   */
  function SplitCodeTitle(d: Record, field: string): (r: Record)
    ensures forall k :: k in d && k != field && k != TitleKey(field) ==> k in r && r[k] == d[k]
    ensures !IsNonEmptyStr(Get(d, field)) || Exec(CodeWithTitle, d[field].s).None? ==> r == d
    ensures IsNonEmptyStr(Get(d, field)) && Exec(CodeWithTitle, d[field].s).Some? ==>
              r.Keys == d.Keys + {field, TitleKey(field)} && r[field].Str? && r[TitleKey(field)].Str?
              && var code, title := r[field].s, r[TitleKey(field)].s;
                 code != [] && (forall k :: 0 <= k < |code| ==> IsWordChar(code[k]))
                 && title != [] && (forall k :: 0 <= k < |title| ==> title[k] != ')')
                 && Includes(d[field].s, code + TitleOpen + title + TitleClose)
  {
    var v := Get(d, field);
    if IsNonEmptyStr(v) then
      match Exec(CodeWithTitle, v.s)
      case None => d
      case Some(m) =>
        CodeWithTitleShape(v.s);
        assert field != TitleKey(field) by {
          assert |TitleKey(field)| == |field| + |TitleSuffix|;
        }
        d[field := Str(Capture(CodeWithTitle, v.s, m, 0))][TitleKey(field) := Str(Capture(CodeWithTitle, v.s, m, 1))]
    else d
  }

  /**
   * A field `... CODE (TITLE) ...` where this is the leftmost place at which
   * a run of word characters is followed by ` (TITLE)`: the field becomes
   * CODE and its title property TITLE.
   */
  lemma CodeTitleSplit(d: Record, field: string, i: nat, j: nat, q: nat)
    requires IsNonEmptyStr(Get(d, field))
    requires FirstCodeTitle(d[field].s, i, j, q)
    ensures SplitCodeTitle(d, field)[field] == Str(d[field].s[i..j])
    ensures SplitCodeTitle(d, field)[TitleKey(field)] == Str(d[field].s[j + |TitleOpen|..q])
  {
    var v := d[field].s;
    CodeTitleFound(v, i, j, q);
    var m := Exec(CodeWithTitle, v).value;
    assert Capture(CodeWithTitle, v, m, 0) == v[i..j];
    assert Capture(CodeWithTitle, v, m, 1) == v[j + |TitleOpen|..q];
    assert field != TitleKey(field) by {
      assert |TitleKey(field)| == |field| + |TitleSuffix|;
    }
  }

  const MajorKey := "Primary Major"
  const DivisionKey := "Primary Division"

  /** The properties the normalisers may add or change. */
  const NormalisedKeys := {"Last", "First", "Privacy", "Advisor", MajorKey, TitleKey(MajorKey), DivisionKey, TitleKey(DivisionKey)}

  /**
   * The normalisers in the order the source runs them.  They delete no
   * property, and leave alone every property they do not normalise.
   */
  function Normalise(d: Record): (r: Record)
    ensures d.Keys <= r.Keys
    ensures forall k :: k in d && k !in NormalisedKeys ==> r[k] == d[k]
  {
    var named := SplitName(d);
    var privacy := CoercePrivacy(named);
    var listed := ListAdvisors(privacy);
    var major := SplitCodeTitle(listed, MajorKey);
    var r := SplitCodeTitle(major, DivisionKey);
    forall k | k in d && k !in NormalisedKeys
      ensures k in r && r[k] == d[k]
    {
      assert k != "Last" && k != "First" && k != "Privacy" && k != "Advisor";
      assert k != MajorKey && k != TitleKey(MajorKey) && k != DivisionKey && k != TitleKey(DivisionKey);
      assert named[k] == d[k];
      assert listed[k] == d[k];
    }
    r
  }

  /**
   * The later normalisers leave a coerced `Privacy` alone: a row whose
   * `Privacy` is a non-empty string ends with `true` exactly for `Y`.
   */
  lemma NormalisedPrivacy(d: Record, privacy: string)
    requires Get(d, "Privacy") == Str(privacy) && privacy != ""
    ensures "Privacy" in Normalise(d)
    ensures Normalise(d)["Privacy"] == Bool(privacy == "Y")
  {
    var coerced := CoercePrivacy(SplitName(d));
    assert "Privacy" in coerced && coerced["Privacy"] == Bool(privacy == "Y");
    var listed := ListAdvisors(coerced);
    assert "Privacy" in listed && listed["Privacy"] == Bool(privacy == "Y");
    KeptByCodeTitle(listed, MajorKey, "Privacy");
    KeptByCodeTitle(SplitCodeTitle(listed, MajorKey), DivisionKey, "Privacy");
  }

  /** Helper for `NormalisedPrivacy`: `SplitCodeTitle` keeps a property whose name is shorter than its field's. */
  lemma KeptByCodeTitle(d: Record, field: string, key: string)
    requires key in d && |key| < |field|
    ensures key in SplitCodeTitle(d, field) && SplitCodeTitle(d, field)[key] == d[key]
  {
    assert |TitleKey(field)| == |field| + |TitleSuffix|;
  }

  /** The record as it stands after the image and the details cell, before the normalisers run. */
  function ParsedRow(row: Row): (r: Result<Record, RowError>)
    ensures r.Err? ==> Includes(r.error.value, Mailto) && Exec(MailtoLink, r.error.value).None?
  {
    var start := ImageFields(row.image);
    match row.details
    case None => Ok(start)
    case Some(html) =>
      ApplyDetailsErrorFrom(start, Contributions(Split(html, LineBreak)));
      ApplyDetails(start, Contributions(Split(html, LineBreak)))
  }

  /**
   * The record `extractDataFromRow` builds from a row, or the error it
   * throws: the TypeError of an `EmailAddress` that mentions `mailto:`
   * without holding a link.
   */
  function RowRecord(row: Row): (r: Result<Record, RowError>)
    ensures r.Err? ==> Includes(r.error.value, Mailto) && Exec(MailtoLink, r.error.value).None?
  {
    match ParsedRow(row)
    case Err(e) => Err(e)
    case Ok(d) => Ok(Normalise(d))
  }

  /** Some piece of the details cell raises the e-mail error. */
  ghost predicate SomePieceFails(pieces: seq<string>) {
    exists n :: 0 <= n < |pieces| && DetailEntry(pieces[n]).Err?
  }

  /** A row fails exactly when one of the pieces of its details cell raises the e-mail error. */
  lemma RowRecordFailsIff(row: Row)
    ensures RowRecord(row).Err? <==> row.details.Some? && SomePieceFails(Split(row.details.value, LineBreak))
  {
    assert RowRecord(row).Err? <==> ParsedRow(row).Err?;
    if row.details.Some? {
      var pieces := Split(row.details.value, LineBreak);
      var cs := Contributions(pieces);
      ApplyDetailsFailsIff(ImageFields(row.image), cs);
      if ParsedRow(row).Err? {
        var n :| 0 <= n < |cs| && cs[n].Err?;
        assert DetailEntry(pieces[n]).Err?;
      }
      if SomePieceFails(pieces) {
        var n :| 0 <= n < |pieces| && DetailEntry(pieces[n]).Err?;
        assert cs[n].Err?;
      }
    }
  }

  /**
   * The `forEach` over the `<br>`-separated pieces of the details cell, which
   * stops at the first piece that throws.
   */
  method ReadDetails(start: Record, details: seq<string>) returns (r: Result<Record, RowError>)
    ensures r == ApplyDetails(start, Contributions(details))
  {
    ghost var cs := Contributions(details);
    var data := start;
    var n := 0;
    while n < |details|
      invariant 0 <= n <= |details|
      invariant ApplyDetails(start, cs[..n]) == Ok(data)
    {
      var next := ReadPiece(data, details[n]);
      assert next == ApplyOne(data, cs[n]);
      if next.Err? {
        ApplyDetailsStopsAt(start, cs, n, data);
        return next;
      }
      ApplyDetailsStep(start, cs, n, data);
      data := next.value;
      n := n + 1;
    }
    assert cs[..n] == cs;
    return Ok(data);
  }

  /**
   * The body of the `forEach`: a piece that matches `<b>KEY: </b>VALUE`
   * assigns its trimmed value (for an e-mail link, the address inside it) to
   * its trimmed key; an e-mail value mentioning `mailto:` without a link throws.
   */
  method ReadPiece(data: Record, detail: string) returns (r: Result<Record, RowError>)
    ensures r == ApplyOne(data, DetailEntry(detail))
  {
    var m := Exec(DetailLine, detail);
    if m.None? {
      return Ok(data);
    }
    var key := Trim(Capture(DetailLine, detail, m.value, 0));
    var value := Trim(Capture(DetailLine, detail, m.value, 1));
    DetailEntryOfMatch(detail);
    if key == EmailKey && Includes(value, Mailto) {
      var link := Exec(MailtoLink, value);
      if link.None? {
        return Err(MailtoLinkMissing(value));
      }
      value := Capture(MailtoLink, value, link.value, 0);
    }
    assert DetailEntry(detail) == Ok(Some((key, value)));
    return Ok(Store(data, key, value));
  }

  /**
   * `extractDataFromRow`: the record is built by assignments to one object,
   * first from the image, then piece by piece from the details cell, then by
   * the normalisers in turn.
   */
  method ExtractDataFromRow(row: Row) returns (r: Result<Record, RowError>)
    ensures r == RowRecord(row)
  {
    var data: Record := map[];
    if row.image.Some? {
      var img := row.image.value;
      data := data["imageLink" := Str(img.src)];
      var studentIdMatch := Exec(Digits, img.alt);
      if studentIdMatch.Some? {
        data := data["studentId" := Str(Capture(Digits, img.alt, studentIdMatch.value, 0))];
      }
    }
    assert data == ImageFields(row.image);
    if row.details.Some? {
      var details := Split(row.details.value, LineBreak);
      var parsed := ReadDetails(data, details);
      if parsed.Err? {
        return Err(parsed.error);
      }
      data := parsed.value;
    }
    assert ParsedRow(row) == Ok(data);
    data := NameStep(data);
    data := PrivacyStep(data);
    data := AdvisorStep(data);
    data := CodeTitleStep(data, MajorKey);
    data := CodeTitleStep(data, DivisionKey);
    return Ok(data);
  }

  /** Splits a non-empty `Name` on commas into `Last` and `First`, in place. */
  method NameStep(data: Record) returns (out: Record)
    ensures out == SplitName(data)
  {
    out := data;
    var name := Get(out, "Name");
    if name.Str? && name.s != "" {
      var nameParts := Split(name.s, ",");
      out := out["Last" := Str(Trim(nameParts[0]))];
      out := out["First" := if |nameParts| > 1 then Str(Trim(nameParts[1])) else Undefined];
    }
  }

  /** Turns a truthy `Privacy` into a boolean, in place. */
  method PrivacyStep(data: Record) returns (out: Record)
    ensures out == CoercePrivacy(data)
  {
    out := data;
    if Truthy(Get(out, "Privacy")) {
      out := out["Privacy" := Bool(Get(out, "Privacy") == Str("Y"))];
    }
  }

  /** Turns a non-empty `Advisor` into the list of its trimmed `;`-separated parts, in place. */
  method AdvisorStep(data: Record) returns (out: Record)
    ensures out == ListAdvisors(data)
  {
    out := data;
    var advisor := Get(out, "Advisor");
    if advisor.Str? && advisor.s != "" {
      var advisors := Split(advisor.s, ";");
      out := out["Advisor" := List(TrimEach(advisors))];
    }
  }

  /** Splits a non-empty `CODE (TITLE)` field into the code and its title property, in place. */
  method CodeTitleStep(data: Record, field: string) returns (out: Record)
    ensures out == SplitCodeTitle(data, field)
  {
    out := data;
    var v := Get(out, field);
    if v.Str? && v.s != "" {
      var m := Exec(CodeWithTitle, v.s);
      if m.Some? {
        out := out[field := Str(Capture(CodeWithTitle, v.s, m.value, 0))];
        out := out[TitleKey(field) := Str(Capture(CodeWithTitle, v.s, m.value, 1))];
      }
    }
  }
}
