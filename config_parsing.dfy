/**
 * The configuration parser (`_ConfigParser`, `_LineType`, `_NormalizedLine`):
 * raw message text is split into numbered lines, kept lines are normalized into
 * headings and bullets, bullets are grouped under the three required sections,
 * each bullet is split into a key and a value, and the two section parsers turn
 * those pairs into policies. Every raised exception becomes an `Err`.
 *
 * Three capabilities the parser does not implement are parameters: the test for
 * html-like tags, the lookup of a channel by id, and the resolver that turns a
 * role mention into an id and a name.
 */
module ConfigParsing {
  import opened Wrappers
  import opened Text
  import opened ConfigModels

  // -------------------------
  // Section and field constants
  // -------------------------

  const SECTION_ROOT := "our bot config"
  const SECTION_CHANNEL_PRUNING := "channel pruning"
  const SECTION_MEMBER_INACTIVITY := "member inactivity"

  const REQUIRED_SECTIONS: set<string> :=
    {SECTION_ROOT, SECTION_CHANNEL_PRUNING, SECTION_MEMBER_INACTIVITY}

  const FIELD_ACTIVE_ROLE := "active role"
  const FIELD_INACTIVE_ROLE := "inactive role"
  const FIELD_DAYS_UNTIL_INACTIVE := "days until inactive"

  /** The member-inactivity field names, in normalized form. */
  const MEMBER_ACTIVITY_FIELDS: set<string> :=
    {FIELD_ACTIVE_ROLE, FIELD_INACTIVE_ROLE, FIELD_DAYS_UNTIL_INACTIVE}

  const CODE_FENCE := "```"

  // -------------------------
  // Parser data
  // -------------------------

  datatype LineType = Heading | Bullet

  /** A kept line: its raw text, its 1-based line number, its kind and its decoration-free text. */
  datatype NormalizedLine = NormalizedLine(
    rawText: string,
    lineNumber: int,
    lineType: LineType,
    normalizedText: string
  )

  /** A bullet split into its key and value. */
  datatype ParsedBullet = ParsedBullet(line: NormalizedLine, key: string, value: string)

  /** A channel or role as a resolver reports it. */
  datatype Entity = Entity(id: int, name: string)

  /** The result of the member-inactivity section parser. */
  datatype MemberActivityPolicy = MemberActivityPolicy(
    activeRoleId: int,
    activeRoleName: string,
    inactiveRoleId: int,
    inactiveRoleName: string,
    daysUntilInactive: int
  )

  /** The errors the parser raises, with the line, bullet or names they point at. */
  datatype ParseError =
    | CodeBlockMarker(lineNumber: int, rawText: string)
    | HtmlLikeTag(lineNumber: int, rawText: string)
    | UnknownSection(line: NormalizedLine)
    | DuplicateSection(line: NormalizedLine)
    | MissingSections(sections: set<string>)
    | MalformedBullet(line: NormalizedLine)
    | MalformedChannelMention(bullet: ParsedBullet)
    | UnresolvedChannel(bullet: ParsedBullet)
    | MalformedDays(bullet: ParsedBullet)
    | MissingFields(fields: set<string>)
    | UnknownField(field: string, bullet: ParsedBullet)
    | UnresolvedRole(bullet: ParsedBullet)

  // -------------------------
  // Line normalization
  // -------------------------

  /** A line holding a code-block marker or, by the injected test, an html-like tag. */
  predicate Disallowed(raw: string, looksLikeTag: string -> bool) {
    Contains(Strip(raw), CODE_FENCE) || looksLikeTag(Strip(raw))
  }

  function DropHashes(s: string): (r: string)
    ensures |r| <= |s|
    ensures r == [] || r[0] != '#'
  {
    if s != [] && s[0] == '#' then DropHashes(s[1..]) else s
  }

  /** A markdown heading: a run of `#` followed by whitespace or the end of the line. */
  predicate IsHeadingLine(t: string) {
    t != [] && t[0] == '#' && (DropHashes(t) == [] || IsSpace(DropHashes(t)[0]))
  }

  /** A markdown bullet item: `-` or `*` followed by whitespace or the end of the line. */
  predicate IsBulletLine(t: string) {
    t != [] && (t[0] == '-' || t[0] == '*') && (|t| == 1 || IsSpace(t[1]))
  }

  predicate StartsHeadingOrBullet(t: string) {
    IsHeadingLine(t) || IsBulletLine(t)
  }

  lemma StrippedLower(s: string)
    requires IsStripped(s)
    ensures IsStripped(Lower(s)) && IsLower(Lower(s))
  {
  }

  /**
   * One line: rejected when it holds a disallowed construct, dropped unless it
   * is a markdown heading or bullet item, and otherwise classified and stripped
   * of its marker. Heading text is lower-cased.
   */
  function NormalizeLine(raw: string, lineNumber: int, looksLikeTag: string -> bool)
    : (r: Result<Option<NormalizedLine>, ParseError>)
    ensures r.Err? <==> Disallowed(raw, looksLikeTag)
    ensures r.Err? && Contains(Strip(raw), CODE_FENCE) ==> r.error == CodeBlockMarker(lineNumber, raw)
    ensures r.Err? && !Contains(Strip(raw), CODE_FENCE) ==> r.error == HtmlLikeTag(lineNumber, raw)
    ensures r.Ok? ==> (r.value.Some? <==> StartsHeadingOrBullet(Strip(raw)))
    ensures r.Ok? && r.value.Some? ==>
      var l := r.value.value;
      l.rawText == raw && l.lineNumber == lineNumber && IsStripped(l.normalizedText) &&
      (l.lineType == Heading <==> IsHeadingLine(Strip(raw))) &&
      (l.lineType == Heading ==> IsLower(l.normalizedText))
  {
    var t := Strip(raw);
    if Contains(t, CODE_FENCE) then Err(CodeBlockMarker(lineNumber, raw))
    else if looksLikeTag(t) then Err(HtmlLikeTag(lineNumber, raw))
    else if IsHeadingLine(t) then
      var title := Strip(DropHashes(t));
      StrippedLower(title);
      Ok(Some(NormalizedLine(raw, lineNumber, Heading, Lower(title))))
    else if IsBulletLine(t) then
      Ok(Some(NormalizedLine(raw, lineNumber, Bullet, Strip(t[1..]))))
    else
      Ok(None)
  }

  function Hashes(level: nat): (s: string)
    ensures |s| == level && forall i :: 0 <= i < level ==> s[i] == '#'
  {
    seq(level, _ => '#')
  }

  lemma {:induction false} DropHashesOf(level: nat, rest: string)
    requires rest == [] || rest[0] != '#'
    ensures DropHashes(Hashes(level) + rest) == rest
  {
    if level > 0 {
      assert (Hashes(level) + rest)[1..] == Hashes(level - 1) + rest;
      DropHashesOf(level - 1, rest);
    } else {
      assert Hashes(level) + rest == rest;
    }
  }

  /**
   * Heading level and letter case do not matter: any number of `#`, then
   * whitespace, then a title normalizes to the lower-cased title.
   */
  lemma HeadingLevelAndCaseIgnored(level: nat, gap: string, title: string, lineNumber: int, looksLikeTag: string -> bool)
    requires level >= 1 && gap != [] && AllSpace(gap)
    requires title != [] && IsStripped(title)
    requires !Disallowed(Hashes(level) + gap + title, looksLikeTag)
    ensures NormalizeLine(Hashes(level) + gap + title, lineNumber, looksLikeTag)
      == Ok(Some(NormalizedLine(Hashes(level) + gap + title, lineNumber, Heading, Lower(title))))
  {
    var raw := Hashes(level) + gap + title;
    assert Strip(raw) == raw by {
      assert IsStripped(raw);
      assert raw == [] + raw + [];
      StripPadded([], raw, []);
    }
    assert DropHashes(raw) == gap + title by {
      assert raw == Hashes(level) + (gap + title);
      assert (gap + title)[0] == gap[0];
      DropHashesOf(level, gap + title);
    }
    assert Strip(gap + title) == title by {
      assert gap + title == gap + title + [];
      StripPadded(gap, title, []);
    }
    assert raw[0] == '#';
    assert IsSpace(DropHashes(raw)[0]) by {
      assert (gap + title)[0] == gap[0];
    }
  }

  /** A `-` or `*` marker, whitespace and an item normalize to a bullet holding the item. */
  lemma BulletItemKept(marker: char, gap: string, item: string, lineNumber: int, looksLikeTag: string -> bool)
    requires marker == '-' || marker == '*'
    requires gap != [] && AllSpace(gap)
    requires item != [] && IsStripped(item)
    requires !Disallowed([marker] + (gap + item), looksLikeTag)
    ensures NormalizeLine([marker] + (gap + item), lineNumber, looksLikeTag)
      == Ok(Some(NormalizedLine([marker] + (gap + item), lineNumber, Bullet, item)))
  {
    var raw := [marker] + (gap + item);
    assert Strip(raw) == raw by {
      assert IsStripped(raw);
      StrippedIsStrip(raw);
    }
    assert IsBulletLine(raw) && !IsHeadingLine(raw) by {
      assert raw[1] == gap[0];
    }
    assert Strip(raw[1..]) == item by {
      assert raw[1..] == gap + item + [];
      StripPadded(gap, item, []);
    }
  }

  lemma StrippedIsStrip(t: string)
    requires IsStripped(t)
    ensures Strip(t) == t
  {
    assert t == [] + t + [];
    StripPadded([], t, []);
  }

  /**
   * A marker that is not followed by whitespace starts no heading and no bullet
   * item, so the line is ignored: "#tag", "**Note** read this" and "---" are not
   * config lines.
   */
  lemma MarkerWithoutSpaceIgnored(marker: char, rest: string, lineNumber: int, looksLikeTag: string -> bool)
    requires marker == '#' || marker == '-' || marker == '*'
    requires rest != [] && !IsSpace(rest[0]) && (marker == '#' ==> rest[0] != '#')
    requires IsStripped([marker] + rest)
    requires !Disallowed([marker] + rest, looksLikeTag)
    ensures NormalizeLine([marker] + rest, lineNumber, looksLikeTag) == Ok(None)
  {
    var raw := [marker] + rest;
    StrippedIsStrip(raw);
    assert !IsBulletLine(raw) by {
      assert raw[1] == rest[0];
    }
    assert !IsHeadingLine(raw) by {
      if marker == '#' {
        assert raw[1..] == rest;
        assert DropHashes(raw) == DropHashes(rest) == rest;
      }
    }
  }

  /** A `#` run of any length that is not followed by whitespace starts no heading: "##tag" is ignored. */
  lemma HashRunWithoutSpaceIgnored(level: nat, rest: string, lineNumber: int, looksLikeTag: string -> bool)
    requires level >= 1
    requires rest != [] && !IsSpace(rest[0]) && rest[0] != '#'
    requires IsStripped(Hashes(level) + rest)
    requires !Disallowed(Hashes(level) + rest, looksLikeTag)
    ensures NormalizeLine(Hashes(level) + rest, lineNumber, looksLikeTag) == Ok(None)
  {
    var raw := Hashes(level) + rest;
    StrippedIsStrip(raw);
    assert raw[0] == '#';
    assert !IsHeadingLine(raw) by {
      DropHashesOf(level, rest);
    }
  }

  /** A line without a backtick holds no code fence. */
  lemma NoBacktickNoFence(t: string)
    requires forall i :: 0 <= i < |t| ==> t[i] != '`'
    ensures !Contains(t, CODE_FENCE)
  {
    forall i | 0 <= i <= |t| - 3
      ensures !OccursAt(t, CODE_FENCE, i)
    {
      assert t[i] != '`';
    }
  }

  /** Emphasis, a tag-like word and a thematic break are ignored, not read as config lines. */
  lemma NonMarkdownLinesIgnored(lineNumber: int, looksLikeTag: string -> bool)
    requires !looksLikeTag("#tag") && !looksLikeTag("**Note**") && !looksLikeTag("---")
    ensures NormalizeLine("#tag", lineNumber, looksLikeTag) == Ok(None)
    ensures NormalizeLine("**Note**", lineNumber, looksLikeTag) == Ok(None)
    ensures NormalizeLine("---", lineNumber, looksLikeTag) == Ok(None)
  {
    assert NormalizeLine("#tag", lineNumber, looksLikeTag) == Ok(None) by {
      assert "#tag" == ['#'] + "tag";
      LiteralIgnored('#', "tag", lineNumber, looksLikeTag);
    }
    assert NormalizeLine("**Note**", lineNumber, looksLikeTag) == Ok(None) by {
      assert "**Note**" == ['*'] + "*Note**";
      LiteralIgnored('*', "*Note**", lineNumber, looksLikeTag);
    }
    assert NormalizeLine("---", lineNumber, looksLikeTag) == Ok(None) by {
      assert "---" == ['-'] + "--";
      LiteralIgnored('-', "--", lineNumber, looksLikeTag);
    }
  }

  lemma LiteralIgnored(marker: char, rest: string, lineNumber: int, looksLikeTag: string -> bool)
    requires marker == '#' || marker == '-' || marker == '*'
    requires rest != [] && !IsSpace(rest[0]) && (marker == '#' ==> rest[0] != '#')
    requires !IsSpace(rest[|rest| - 1])
    requires forall i :: 0 <= i < |rest| ==> rest[i] != '`'
    requires !looksLikeTag([marker] + rest)
    ensures NormalizeLine([marker] + rest, lineNumber, looksLikeTag) == Ok(None)
  {
    var raw := [marker] + rest;
    assert IsStripped(raw);
    assert !Disallowed(raw, looksLikeTag) by {
      StrippedIsStrip(raw);
      NoBacktickNoFence(raw);
    }
    MarkerWithoutSpaceIgnored(marker, rest, lineNumber, looksLikeTag);
  }

  /** The outcome of normalizing each line on its own; line numbers are 1-based. */
  function LineResults(raw: seq<string>, looksLikeTag: string -> bool): (rs: seq<Result<Option<NormalizedLine>, ParseError>>)
    ensures |rs| == |raw|
  {
    seq(|raw|, j requires 0 <= j < |raw| => NormalizeLine(raw[j], j + 1, looksLikeTag))
  }

  lemma LineResultAt(raw: seq<string>, looksLikeTag: string -> bool, j: nat)
    requires j < |raw|
    ensures LineResults(raw, looksLikeTag)[j] == NormalizeLine(raw[j], j + 1, looksLikeTag)
  {
  }

  /** Line `j` was accepted and kept. */
  predicate IsKept(rs: seq<Result<Option<NormalizedLine>, ParseError>>, j: int) {
    0 <= j < |rs| && rs[j].Ok? && rs[j].value.Some?
  }

  /** Every kept line carries the number of the line it came from. */
  predicate Numbered(rs: seq<Result<Option<NormalizedLine>, ParseError>>) {
    forall j :: 0 <= j < |rs| && IsKept(rs, j) ==> rs[j].value.value.lineNumber == j + 1
  }

  lemma LineResultsNumbered(raw: seq<string>, looksLikeTag: string -> bool)
    ensures Numbered(LineResults(raw, looksLikeTag))
  {
  }

  /** The kept lines from line `i` on, in document order. */
  function KeptFrom(rs: seq<Result<Option<NormalizedLine>, ParseError>>, i: nat): seq<NormalizedLine>
    requires i <= |rs|
    decreases |rs| - i
  {
    if i == |rs| then []
    else (if IsKept(rs, i) then [rs[i].value.value] else []) + KeptFrom(rs, i + 1)
  }

  /**
   * Gathers the per-line outcomes from line `i` on: the first rejected line's error,
   * or else the kept lines.
   */
  function CollectFrom(rs: seq<Result<Option<NormalizedLine>, ParseError>>, i: nat)
    : (r: Result<seq<NormalizedLine>, ParseError>)
    requires i <= |rs|
    ensures r.Ok? <==> forall j :: i <= j < |rs| ==> rs[j].Ok?
    ensures r.Err? ==> exists j :: i <= j < |rs| && rs[j] == Err(r.error) && forall m :: i <= m < j ==> rs[m].Ok?
    ensures r.Ok? ==> r.value == KeptFrom(rs, i)
    decreases |rs| - i
  {
    if i == |rs| then Ok([])
    else
      match rs[i]
      case Err(e) => Err(e)
      case Ok(o) =>
        match CollectFrom(rs, i + 1)
        case Err(e) =>
          assert exists j :: i <= j < |rs| && rs[j] == Err(e) && forall m :: i <= m < j ==> rs[m].Ok? by {
            var j :| i + 1 <= j < |rs| && rs[j] == Err(e) && forall m :: i + 1 <= m < j ==> rs[m].Ok?;
            assert forall m :: i <= m < j ==> rs[m].Ok?;
          }
          Err(e)
        case Ok(rest) => Ok((if o.Some? then [o.value] else []) + rest)
  }

  /** Each kept line is the outcome of the line its number names. */
  lemma {:induction false} KeptFromSource(rs: seq<Result<Option<NormalizedLine>, ParseError>>, i: nat)
    requires i <= |rs| && Numbered(rs)
    ensures forall k :: 0 <= k < |KeptFrom(rs, i)| ==>
      i < KeptFrom(rs, i)[k].lineNumber <= |rs| &&
      rs[KeptFrom(rs, i)[k].lineNumber - 1] == Ok(Some(KeptFrom(rs, i)[k]))
    decreases |rs| - i
  {
    if i < |rs| {
      KeptFromSource(rs, i + 1);
    }
  }

  /** Kept lines come in increasing line-number order. */
  lemma {:induction false} KeptFromIncreasing(rs: seq<Result<Option<NormalizedLine>, ParseError>>, i: nat)
    requires i <= |rs| && Numbered(rs)
    ensures forall a, b :: 0 <= a < b < |KeptFrom(rs, i)| ==> KeptFrom(rs, i)[a].lineNumber < KeptFrom(rs, i)[b].lineNumber
    decreases |rs| - i
  {
    if i < |rs| {
      KeptFromIncreasing(rs, i + 1);
      KeptFromSource(rs, i + 1);
    }
  }

  /** Some line of `lines` carries number `n`. */
  predicate HasLineNumber(lines: seq<NormalizedLine>, n: int) {
    exists k :: 0 <= k < |lines| && lines[k].lineNumber == n
  }

  /** No kept line is lost. */
  lemma {:induction false} KeptFromComplete(rs: seq<Result<Option<NormalizedLine>, ParseError>>, i: nat)
    requires i <= |rs| && Numbered(rs)
    ensures forall j :: i <= j < |rs| && IsKept(rs, j) ==> HasLineNumber(KeptFrom(rs, i), j + 1)
    decreases |rs| - i
  {
    if i < |rs| {
      KeptFromComplete(rs, i + 1);
      var rest := KeptFrom(rs, i + 1);
      if IsKept(rs, i) {
        var x := rs[i].value.value;
        assert KeptFrom(rs, i) == [x] + rest;
        forall j | i <= j < |rs| && IsKept(rs, j)
          ensures HasLineNumber([x] + rest, j + 1)
        {
          if j == i {
            HasLineNumberHead(x, rest);
          } else {
            HasLineNumberTail(x, rest, j + 1);
          }
        }
      } else {
        assert KeptFrom(rs, i) == rest;
      }
    }
  }

  lemma HasLineNumberHead(x: NormalizedLine, rest: seq<NormalizedLine>)
    ensures HasLineNumber([x] + rest, x.lineNumber)
  {
    assert ([x] + rest)[0] == x;
  }

  lemma HasLineNumberTail(x: NormalizedLine, rest: seq<NormalizedLine>, n: int)
    requires HasLineNumber(rest, n)
    ensures HasLineNumber([x] + rest, n)
  {
    var k :| 0 <= k < |rest| && rest[k].lineNumber == n;
    assert ([x] + rest)[k + 1] == rest[k];
  }

  /** Split into lines, keep headings and bullets, reject disallowed constructs. */
  function NormalizeLines(text: string, looksLikeTag: string -> bool): Result<seq<NormalizedLine>, ParseError> {
    CollectFrom(LineResults(SplitLines(text), looksLikeTag), 0)
  }

  lemma {:induction false} CollectLinesSucceedsIff(raw: seq<string>, looksLikeTag: string -> bool)
    ensures CollectFrom(LineResults(raw, looksLikeTag), 0).Ok? <==>
      forall j :: 0 <= j < |raw| ==> !Disallowed(raw[j], looksLikeTag)
  {
    var rs := LineResults(raw, looksLikeTag);
    forall j | 0 <= j < |raw|
      ensures rs[j].Ok? <==> !Disallowed(raw[j], looksLikeTag)
    {
      LineResultAt(raw, looksLikeTag, j);
    }
  }

  /** Normalization succeeds exactly when no line of the text holds a disallowed construct. */
  lemma NormalizeLinesSucceedsIff(text: string, looksLikeTag: string -> bool)
    ensures NormalizeLines(text, looksLikeTag).Ok? <==>
      forall j :: 0 <= j < |SplitLines(text)| ==> !Disallowed(SplitLines(text)[j], looksLikeTag)
  {
    CollectLinesSucceedsIff(SplitLines(text), looksLikeTag);
    assert NormalizeLines(text, looksLikeTag) == CollectFrom(LineResults(SplitLines(text), looksLikeTag), 0);
  }

  lemma {:induction false} CollectLinesReportsFirstOffence(raw: seq<string>, looksLikeTag: string -> bool)
    requires CollectFrom(LineResults(raw, looksLikeTag), 0).Err?
    ensures exists j :: (0 <= j < |raw| && Disallowed(raw[j], looksLikeTag) &&
      (forall m :: 0 <= m < j ==> !Disallowed(raw[m], looksLikeTag)) &&
      CollectFrom(LineResults(raw, looksLikeTag), 0).error in
        {CodeBlockMarker(j + 1, raw[j]), HtmlLikeTag(j + 1, raw[j])})
  {
    var rs := LineResults(raw, looksLikeTag);
    var e := CollectFrom(rs, 0).error;
    var j :| 0 <= j < |rs| && rs[j] == Err(e) && forall m :: 0 <= m < j ==> rs[m].Ok?;
    LineResultAt(raw, looksLikeTag, j);
    forall m | 0 <= m < j
      ensures !Disallowed(raw[m], looksLikeTag)
    {
      LineResultAt(raw, looksLikeTag, m);
    }
    assert e in {CodeBlockMarker(j + 1, raw[j]), HtmlLikeTag(j + 1, raw[j])};
  }

  /** A rejected text reports the first offending line, by its number and raw text. */
  lemma NormalizeLinesReportsFirstOffence(text: string, looksLikeTag: string -> bool)
    requires NormalizeLines(text, looksLikeTag).Err?
    ensures exists j :: (0 <= j < |SplitLines(text)| && Disallowed(SplitLines(text)[j], looksLikeTag) &&
      (forall m :: 0 <= m < j ==> !Disallowed(SplitLines(text)[m], looksLikeTag)) &&
      NormalizeLines(text, looksLikeTag).error in
        {CodeBlockMarker(j + 1, SplitLines(text)[j]), HtmlLikeTag(j + 1, SplitLines(text)[j])})
  {
    CollectLinesReportsFirstOffence(SplitLines(text), looksLikeTag);
  }

  /** `l` is what normalizing the raw line its number names gives. */
  predicate FromSourceLine(raw: seq<string>, l: NormalizedLine, looksLikeTag: string -> bool) {
    1 <= l.lineNumber <= |raw| && NormalizeLine(raw[l.lineNumber - 1], l.lineNumber, looksLikeTag) == Ok(Some(l))
  }

  /**
   * A successful normalization keeps exactly the heading and bullet lines, in
   * document order, each as normalizing that line on its own gives it.
   */
  lemma NormalizeLinesKeepsMarkedLines(text: string, looksLikeTag: string -> bool)
    requires NormalizeLines(text, looksLikeTag).Ok?
    ensures var lines := NormalizeLines(text, looksLikeTag).value; var raw := SplitLines(text);
      (forall k :: 0 <= k < |lines| ==> FromSourceLine(raw, lines[k], looksLikeTag)) &&
      (forall a, b :: 0 <= a < b < |lines| ==> lines[a].lineNumber < lines[b].lineNumber) &&
      (forall j :: 0 <= j < |raw| && StartsHeadingOrBullet(Strip(raw[j])) ==>
         HasLineNumber(lines, j + 1))
  {
    var raw := SplitLines(text);
    var rs := LineResults(raw, looksLikeTag);
    var lines := KeptFrom(rs, 0);
    assert NormalizeLines(text, looksLikeTag).value == lines;
    assert forall j :: 0 <= j < |rs| ==> rs[j].Ok?;
    LineResultsNumbered(raw, looksLikeTag);
    KeptFromSource(rs, 0);
    KeptFromIncreasing(rs, 0);
    KeptFromComplete(rs, 0);
    forall k | 0 <= k < |lines|
      ensures FromSourceLine(raw, lines[k], looksLikeTag)
    {
      LineResultAt(raw, looksLikeTag, lines[k].lineNumber - 1);
    }
    forall j | 0 <= j < |raw| && StartsHeadingOrBullet(Strip(raw[j]))
      ensures HasLineNumber(lines, j + 1)
    {
      LineResultAt(raw, looksLikeTag, j);
      assert rs[j].Ok?;
      assert IsKept(rs, j);
    }
  }

  // -------------------------
  // Section map
  // -------------------------

  /**
   * The section a heading names, lower-cased as the section-map step requires
   * (normalization has lower-cased heading text already, so this changes nothing
   * for lines it produced).
   */
  function HeadingKey(l: NormalizedLine): string {
    Lower(l.normalizedText)
  }

  /** On a heading that normalization produced, the section-map step's lower-casing changes nothing. */
  lemma HeadingKeyOfNormalized(raw: string, lineNumber: int, looksLikeTag: string -> bool)
    requires NormalizeLine(raw, lineNumber, looksLikeTag).Ok? && NormalizeLine(raw, lineNumber, looksLikeTag).value.Some?
    requires NormalizeLine(raw, lineNumber, looksLikeTag).value.value.lineType == Heading
    ensures var l := NormalizeLine(raw, lineNumber, looksLikeTag).value.value; HeadingKey(l) == l.normalizedText
  {
    LowerOfLower(NormalizeLine(raw, lineNumber, looksLikeTag).value.value.normalizedText);
  }

  predicate IsHeading(lines: seq<NormalizedLine>, k: int) {
    0 <= k < |lines| && lines[k].lineType == Heading
  }

  /** The section names of the headings among the first `n` lines. */
  function HeadingKeysBefore(lines: seq<NormalizedLine>, n: nat): set<string>
    requires n <= |lines|
  {
    set k | 0 <= k < n && IsHeading(lines, k) :: HeadingKey(lines[k])
  }

  /** A heading naming an unknown section, or a section already opened above it. */
  predicate BadHeadingAt(lines: seq<NormalizedLine>, m: nat)
    requires m < |lines|
  {
    IsHeading(lines, m) &&
    (HeadingKey(lines[m]) !in REQUIRED_SECTIONS || HeadingKey(lines[m]) in HeadingKeysBefore(lines, m))
  }

  function FirstBadHeadingFrom(lines: seq<NormalizedLine>, j: nat): (r: Option<nat>)
    requires j <= |lines|
    ensures r.Some? ==>
      j <= r.value < |lines| && BadHeadingAt(lines, r.value) &&
      forall m :: j <= m < r.value ==> !BadHeadingAt(lines, m)
    ensures r.None? ==> forall m :: j <= m < |lines| ==> !BadHeadingAt(lines, m)
    decreases |lines| - j
  {
    if j == |lines| then None
    else if BadHeadingAt(lines, j) then Some(j)
    else FirstBadHeadingFrom(lines, j + 1)
  }

  lemma FirstBadHeadingIs(lines: seq<NormalizedLine>, i: nat)
    requires i < |lines| && BadHeadingAt(lines, i)
    requires forall m :: 0 <= m < i ==> !BadHeadingAt(lines, m)
    ensures FirstBadHeadingFrom(lines, 0) == Some(i)
  {
  }

  /** The section in force after the first `n` lines: that of the nearest heading above. */
  function SectionAfter(lines: seq<NormalizedLine>, n: nat): (r: Option<string>)
    requires n <= |lines|
    ensures r.Some? ==> r.value in HeadingKeysBefore(lines, n)
    decreases n
  {
    if n == 0 then None
    else if lines[n - 1].lineType == Heading then
      assert IsHeading(lines, n - 1);
      Some(HeadingKey(lines[n - 1]))
    else
      var r := SectionAfter(lines, n - 1);
      assert HeadingKeysBefore(lines, n - 1) <= HeadingKeysBefore(lines, n);
      r
  }

  /**
   * The bullets among the first `n` lines that lie under a heading for section `s`,
   * in document order. Bullets above the first heading belong to no section.
   */
  function SectionLines(lines: seq<NormalizedLine>, n: nat, s: string): seq<NormalizedLine>
    requires n <= |lines|
    decreases n
  {
    if n == 0 then []
    else
      SectionLines(lines, n - 1, s) +
      (if lines[n - 1].lineType == Bullet && SectionAfter(lines, n - 1) == Some(s) then [lines[n - 1]] else [])
  }

  /** The bullets among the first `n` lines that lie under some heading, in document order. */
  function SectionedBullets(lines: seq<NormalizedLine>, n: nat): seq<NormalizedLine>
    requires n <= |lines|
    decreases n
  {
    if n == 0 then []
    else
      SectionedBullets(lines, n - 1) +
      (if lines[n - 1].lineType == Bullet && SectionAfter(lines, n - 1).Some? then [lines[n - 1]] else [])
  }

  /** A bullet under a heading at index `m`. */
  predicate SectionedBulletAt(lines: seq<NormalizedLine>, m: nat)
    requires m < |lines|
  {
    lines[m].lineType == Bullet && SectionAfter(lines, m).Some?
  }

  /** A section with no heading among the first `n` lines has no bullets there. */
  lemma {:induction false} SectionLinesWithoutHeading(lines: seq<NormalizedLine>, n: nat, s: string)
    requires n <= |lines| && s !in HeadingKeysBefore(lines, n)
    ensures SectionLines(lines, n, s) == []
    decreases n
  {
    if n > 0 {
      assert HeadingKeysBefore(lines, n - 1) <= HeadingKeysBefore(lines, n);
      SectionLinesWithoutHeading(lines, n - 1, s);
    }
  }

  /** Nothing is missing from `have` exactly when it holds all of `req`. */
  lemma NoneMissing<T>(req: set<T>, have: set<T>)
    ensures req - have == {} <==> req <= have
  {
    if req - have == {} {
      forall x | x in req ensures x in have {
        assert x !in req - have;
      }
    }
  }

  lemma HeadingKeysStep(lines: seq<NormalizedLine>, i: nat)
    requires i < |lines|
    ensures HeadingKeysBefore(lines, i + 1) ==
      HeadingKeysBefore(lines, i) + (if IsHeading(lines, i) then {HeadingKey(lines[i])} else {})
  {
  }

  /** What building the section map yields for a list of normalized lines. */
  function SectionMapOf(lines: seq<NormalizedLine>): Result<map<string, seq<NormalizedLine>>, ParseError> {
    match FirstBadHeadingFrom(lines, 0)
    case Some(k) =>
      if HeadingKey(lines[k]) !in REQUIRED_SECTIONS then Err(UnknownSection(lines[k]))
      else Err(DuplicateSection(lines[k]))
    case None =>
      var missing := REQUIRED_SECTIONS - HeadingKeysBefore(lines, |lines|);
      if missing != {} then Err(MissingSections(missing))
      else Ok(map s | s in REQUIRED_SECTIONS :: SectionLines(lines, |lines|, s))
  }

  /** Every heading names a required section, and every required section has exactly one heading. */
  predicate EachSectionOnce(lines: seq<NormalizedLine>) {
    (forall k :: 0 <= k < |lines| && IsHeading(lines, k) ==> HeadingKey(lines[k]) in REQUIRED_SECTIONS) &&
    (forall a, b :: 0 <= a < b < |lines| && IsHeading(lines, a) && IsHeading(lines, b) ==>
       HeadingKey(lines[a]) != HeadingKey(lines[b])) &&
    REQUIRED_SECTIONS <= HeadingKeysBefore(lines, |lines|)
  }

  lemma KeyNotOpenedBefore(lines: seq<NormalizedLine>, m: nat)
    requires IsHeading(lines, m)
    requires forall k :: 0 <= k < m && IsHeading(lines, k) ==> HeadingKey(lines[k]) != HeadingKey(lines[m])
    ensures HeadingKey(lines[m]) !in HeadingKeysBefore(lines, m)
  {
  }

  lemma EachSectionOnceBuilds(lines: seq<NormalizedLine>)
    requires EachSectionOnce(lines)
    ensures SectionMapOf(lines).Ok?
  {
    forall m | 0 <= m < |lines|
      ensures !BadHeadingAt(lines, m)
    {
      if IsHeading(lines, m) {
        KeyNotOpenedBefore(lines, m);
      }
    }
    assert FirstBadHeadingFrom(lines, 0).None?;
    NoneMissing(REQUIRED_SECTIONS, HeadingKeysBefore(lines, |lines|));
  }

  /** The section map is built exactly when the document's headings are the three sections, once each. */
  lemma SectionMapSucceedsIff(lines: seq<NormalizedLine>)
    ensures SectionMapOf(lines).Ok? <==> EachSectionOnce(lines)
  {
    if FirstBadHeadingFrom(lines, 0).None? {
      forall a, b | 0 <= a < b < |lines| && IsHeading(lines, a) && IsHeading(lines, b)
        ensures HeadingKey(lines[a]) != HeadingKey(lines[b])
      {
        assert !BadHeadingAt(lines, b);
        assert HeadingKey(lines[a]) in HeadingKeysBefore(lines, b);
      }
      forall k | 0 <= k < |lines| && IsHeading(lines, k)
        ensures HeadingKey(lines[k]) in REQUIRED_SECTIONS
      {
        assert !BadHeadingAt(lines, k);
      }
      NoneMissing(REQUIRED_SECTIONS, HeadingKeysBefore(lines, |lines|));
    }
    if EachSectionOnce(lines) {
      EachSectionOnceBuilds(lines);
    }
  }

  /**
   * The state of the section-map scan after the first `i` lines: no bad heading so
   * far, one entry per section opened, each holding that section's bullets so far,
   * and `current` naming the section in force.
   */
  predicate ScanState(lines: seq<NormalizedLine>, i: nat, sections: map<string, seq<NormalizedLine>>, current: Option<string>) {
    i <= |lines| &&
    (forall m :: 0 <= m < i ==> !BadHeadingAt(lines, m)) &&
    sections.Keys == HeadingKeysBefore(lines, i) &&
    sections.Keys <= REQUIRED_SECTIONS &&
    (forall s :: s in sections ==> sections[s] == SectionLines(lines, i, s)) &&
    current == SectionAfter(lines, i)
  }

  /** A heading for a new required section opens an empty section and makes it current. */
  lemma HeadingStep(lines: seq<NormalizedLine>, i: nat, sections: map<string, seq<NormalizedLine>>, current: Option<string>)
    requires ScanState(lines, i, sections, current) && IsHeading(lines, i)
    requires HeadingKey(lines[i]) in REQUIRED_SECTIONS && HeadingKey(lines[i]) !in sections
    ensures ScanState(lines, i + 1, sections[HeadingKey(lines[i]) := []], Some(HeadingKey(lines[i])))
  {
    var name := HeadingKey(lines[i]);
    HeadingKeysStep(lines, i);
    assert !BadHeadingAt(lines, i);
    SectionLinesWithoutHeading(lines, i, name);
    var next := sections[name := []];
    assert forall m :: 0 <= m < i + 1 ==> !BadHeadingAt(lines, m);
    assert next.Keys == sections.Keys + {name};
    assert next.Keys == HeadingKeysBefore(lines, i + 1);
    assert next.Keys <= REQUIRED_SECTIONS;
    forall s | s in next
      ensures next[s] == SectionLines(lines, i + 1, s)
    {
      assert SectionLines(lines, i + 1, s) == SectionLines(lines, i, s);
    }
    assert SectionAfter(lines, i + 1) == Some(name);
  }

  /** A bullet is appended to the current section, if any. */
  lemma BulletStep(lines: seq<NormalizedLine>, i: nat, sections: map<string, seq<NormalizedLine>>, current: Option<string>)
    requires ScanState(lines, i, sections, current) && i < |lines| && lines[i].lineType == Bullet
    ensures current.Some? ==> current.value in sections
    ensures ScanState(lines, i + 1,
      if current.Some? then sections[current.value := sections[current.value] + [lines[i]]] else sections,
      current)
  {
    HeadingKeysStep(lines, i);
    assert !BadHeadingAt(lines, i);
    var next := if current.Some? then sections[current.value := sections[current.value] + [lines[i]]] else sections;
    forall s | s in next
      ensures next[s] == SectionLines(lines, i + 1, s)
    {
      if current == Some(s) {
        assert next[s] == sections[s] + [lines[i]];
      } else {
        assert next[s] == sections[s];
      }
    }
  }

  /** A heading for an unknown section, or for one already opened, ends the scan with that error. */
  lemma BadHeadingStops(lines: seq<NormalizedLine>, i: nat, sections: map<string, seq<NormalizedLine>>, current: Option<string>)
    requires ScanState(lines, i, sections, current) && IsHeading(lines, i)
    requires HeadingKey(lines[i]) !in REQUIRED_SECTIONS || HeadingKey(lines[i]) in sections
    ensures SectionMapOf(lines) ==
      if HeadingKey(lines[i]) !in REQUIRED_SECTIONS then Err(UnknownSection(lines[i])) else Err(DuplicateSection(lines[i]))
  {
    FirstBadHeadingIs(lines, i);
  }

  /** At the end of the scan, the map is complete unless a required section never appeared. */
  lemma ScanFinishes(lines: seq<NormalizedLine>, sections: map<string, seq<NormalizedLine>>, current: Option<string>)
    requires ScanState(lines, |lines|, sections, current)
    ensures SectionMapOf(lines) ==
      if REQUIRED_SECTIONS - sections.Keys != {} then Err(MissingSections(REQUIRED_SECTIONS - sections.Keys))
      else Ok(sections)
  {
    assert FirstBadHeadingFrom(lines, 0).None?;
    NoneMissing(REQUIRED_SECTIONS, sections.Keys);
    if REQUIRED_SECTIONS - sections.Keys == {} {
      assert sections.Keys == REQUIRED_SECTIONS;
      assert sections == map s | s in REQUIRED_SECTIONS :: SectionLines(lines, |lines|, s);
    }
  }

  /**
   * Builds the section map: scans the lines in order, tracking the current section,
   * opening a section at each heading and appending each bullet to the current one.
   */
  method BuildSectionMap(lines: seq<NormalizedLine>) returns (r: Result<map<string, seq<NormalizedLine>>, ParseError>)
    ensures r == SectionMapOf(lines)
  {
    var sections: map<string, seq<NormalizedLine>> := map[];
    var current: Option<string> := None;
    for i := 0 to |lines|
      invariant ScanState(lines, i, sections, current)
    {
      var line := lines[i];
      if line.lineType == Heading {
        var name := Lower(line.normalizedText);
        assert IsHeading(lines, i) && name == HeadingKey(lines[i]);
        if name !in REQUIRED_SECTIONS {
          BadHeadingStops(lines, i, sections, current);
          return Err(UnknownSection(line));
        }
        if name in sections {
          BadHeadingStops(lines, i, sections, current);
          return Err(DuplicateSection(line));
        }
        HeadingStep(lines, i, sections, current);
        sections := sections[name := []];
        current := Some(name);
      } else {
        BulletStep(lines, i, sections, current);
        if current.Some? {
          sections := sections[current.value := sections[current.value] + [line]];
        }
      }
    }
    ScanFinishes(lines, sections, current);
    var missing := REQUIRED_SECTIONS - sections.Keys;
    if missing != {} {
      return Err(MissingSections(missing));
    }
    return Ok(sections);
  }

  // -------------------------
  // Bullets
  // -------------------------

  lemma StripKeepsOut(s: string, c: char)
    requires c !in s
    ensures c !in Strip(s)
  {
    StripIsInfix(s);
  }

  /** Splits a bullet on its first `=`, trimming both sides; a bullet without `=` is malformed. */
  function SplitBullet(line: NormalizedLine): (r: Result<ParsedBullet, ParseError>)
    ensures r.Err? <==> '=' !in line.normalizedText
    ensures r.Err? ==> r.error == MalformedBullet(line)
    ensures r.Ok? ==> r.value.line == line && '=' !in r.value.key && IsStripped(r.value.key) && IsStripped(r.value.value)
  {
    var t := line.normalizedText;
    match IndexOf(t, '=')
    case None => Err(MalformedBullet(line))
    case Some(i) =>
      StripKeepsOut(t[..i], '=');
      Ok(ParsedBullet(line, Strip(t[..i]), Strip(t[i + 1..])))
  }

  lemma SplitBulletAt(line: NormalizedLine, i: nat)
    requires IndexOf(line.normalizedText, '=') == Some(i)
    ensures SplitBullet(line) ==
      Ok(ParsedBullet(line, Strip(line.normalizedText[..i]), Strip(line.normalizedText[i + 1..])))
  {
  }

  /**
   * Whitespace around the first `=` is ignored, and everything after it, later `=`
   * signs included, is the value.
   */
  lemma SplitBulletRoundTrip(line: NormalizedLine, key: string, before: string, after: string, value: string)
    requires IsStripped(key) && '=' !in key && IsStripped(value)
    requires AllSpace(before) && AllSpace(after)
    requires line.normalizedText == key + before + "=" + after + value
    ensures SplitBullet(line) == Ok(ParsedBullet(line, key, value))
  {
    var t := line.normalizedText;
    var p := key + before;
    var q := after + value;
    var i := |p|;
    assert t == p + "=" + q;
    assert t[..i] == p;
    assert t[i + 1..] == q;
    assert '=' !in before by {
      forall k | 0 <= k < |before| ensures before[k] != '=' {
        assert IsSpace(before[k]);
      }
    }
    IndexOfIs(t, '=', i);
    assert Strip(key + before) == key by {
      assert key + before == [] + key + before;
      StripPadded([], key, before);
    }
    assert Strip(after + value) == value by {
      assert after + value == after + value + [];
      StripPadded(after, value, []);
    }
    SplitBulletAt(line, i);
  }

  /** The first bullet at or after `j` that has no `=`. */
  function FirstMalformedFrom(ls: seq<NormalizedLine>, j: nat): (r: Option<nat>)
    requires j <= |ls|
    ensures r.Some? ==> (j <= r.value < |ls| && '=' !in ls[r.value].normalizedText &&
      forall m :: j <= m < r.value ==> '=' in ls[m].normalizedText)
    ensures r.None? ==> forall m :: j <= m < |ls| ==> '=' in ls[m].normalizedText
    decreases |ls| - j
  {
    if j == |ls| then None
    else if '=' !in ls[j].normalizedText then Some(j)
    else FirstMalformedFrom(ls, j + 1)
  }

  /** Splits every bullet of a section; the first malformed one, in document order, is reported. */
  function SplitBullets(ls: seq<NormalizedLine>): (r: Result<seq<ParsedBullet>, ParseError>)
    ensures r.Ok? <==> forall i :: 0 <= i < |ls| ==> '=' in ls[i].normalizedText
    ensures r.Ok? ==> |r.value| == |ls| && forall i :: 0 <= i < |ls| ==> SplitBullet(ls[i]) == Ok(r.value[i])
    ensures r.Err? ==> exists i :: (0 <= i < |ls| && r.error == MalformedBullet(ls[i]) &&
      '=' !in ls[i].normalizedText && forall m :: 0 <= m < i ==> '=' in ls[m].normalizedText)
  {
    match FirstMalformedFrom(ls, 0)
    case Some(k) => Err(MalformedBullet(ls[k]))
    case None => Ok(seq(|ls|, i requires 0 <= i < |ls| => SplitBullet(ls[i]).value))
  }

  // -------------------------
  // Member-inactivity field names
  // -------------------------

  /** Lower-cases a field name and collapses its whitespace to single spaces. */
  function NormalizeFieldName(key: string): string {
    JoinWords(Words(Lower(key)))
  }

  /**
   * A normalized field name is lower case and has the same words as the
   * lower-cased key: only letter case and the whitespace between words change.
   */
  lemma NormalizeFieldNameWords(key: string)
    ensures IsLower(NormalizeFieldName(key))
    ensures Words(NormalizeFieldName(key)) == Words(Lower(key))
  {
    var ws := Words(Lower(key));
    WordsOfJoin(ws);
    WordsOfLower(Lower(key));
    JoinOfLower(ws);
  }

  /** Normalizing a normalized field name changes nothing. */
  lemma NormalizeFieldNameIdempotent(key: string)
    ensures NormalizeFieldName(NormalizeFieldName(key)) == NormalizeFieldName(key)
  {
    var n := NormalizeFieldName(key);
    NormalizeFieldNameWords(key);
    LowerOfLower(n);
  }

  /**
   * The field normalization rule on a two-word name: letter case is dropped and
   * any run of whitespace between the words becomes one space ("Active   Role"
   * becomes "active role").
   */
  lemma NormalizeTwoWordFieldName(first: string, gap: string, second: string)
    requires IsWord(first) && IsWord(second) && gap != [] && AllSpace(gap)
    ensures NormalizeFieldName(first + gap + second) == Lower(first) + " " + Lower(second)
  {
    var f, g, t := Lower(first), Lower(gap), Lower(second);
    LowerConcat(first + gap, second);
    LowerConcat(first, gap);
    assert Lower(first + gap + second) == f + (g + t);
    WordsOfWordThen(f, g + t);
    WordsSkipSpace(g, t);
    WordsOfOneWord(t);
    assert Words(f + (g + t)) == [f, t];
    assert Words(Lower(first + gap + second)) == [f, t];
    assert JoinWords([f, t]) == f + " " + JoinWords([t]);
  }

  /** A member-inactivity bullet with its normalized field name. */
  datatype Field = Field(name: string, bullet: ParsedBullet)

  /** Pairs every bullet with its normalized field name, in order. */
  function NameFields(bs: seq<ParsedBullet>): (fs: seq<Field>)
    ensures |fs| == |bs|
  {
    seq(|bs|, i requires 0 <= i < |bs| => Field(NormalizeFieldName(bs[i].key), bs[i]))
  }

  function FieldNames(fs: seq<Field>): set<string> {
    set i | 0 <= i < |fs| :: fs[i].name
  }

  lemma FieldNamesSnoc(fs: seq<Field>)
    requires fs != []
    ensures FieldNames(fs) == FieldNames(fs[..|fs| - 1]) + {fs[|fs| - 1].name}
  {
    var init := fs[..|fs| - 1];
    forall x | x in FieldNames(fs)
      ensures x in FieldNames(init) + {fs[|fs| - 1].name}
    {
      var i :| 0 <= i < |fs| && fs[i].name == x;
      if i < |fs| - 1 {
        assert init[i] == fs[i];
      }
    }
    forall x | x in FieldNames(init)
      ensures x in FieldNames(fs)
    {
      var i :| 0 <= i < |init| && init[i].name == x;
      assert fs[i] == init[i];
    }
  }

  /** The dictionary from normalized field name to bullet; a repeated name keeps its last bullet. */
  function FieldMap(fs: seq<Field>): (m: map<string, ParsedBullet>)
    ensures m.Keys == FieldNames(fs)
    ensures forall k :: k in m ==> Field(k, m[k]) in fs
    decreases |fs|
  {
    if fs == [] then map[]
    else
      var init := fs[..|fs| - 1];
      var last := fs[|fs| - 1];
      FieldNamesSnoc(fs);
      assert forall f :: f in init ==> f in fs;
      FieldMap(init)[last.name := last.bullet]
  }

  /** The bullet kept for a field name is the last bullet with that name. */
  lemma {:induction false} FieldMapKeepsLast(fs: seq<Field>, i: nat)
    requires i < |fs|
    requires forall j :: i < j < |fs| ==> fs[j].name != fs[i].name
    ensures fs[i].name in FieldMap(fs) && FieldMap(fs)[fs[i].name] == fs[i].bullet
    decreases |fs|
  {
    var init := fs[..|fs| - 1];
    if i < |fs| - 1 {
      assert init[i] == fs[i];
      FieldMapKeepsLast(init, i);
    }
  }

  function FirstUnknownFieldFrom(fs: seq<Field>, j: nat): (r: Option<nat>)
    requires j <= |fs|
    ensures r.Some? ==> (j <= r.value < |fs| && fs[r.value].name !in MEMBER_ACTIVITY_FIELDS &&
      forall m :: j <= m < r.value ==> fs[m].name in MEMBER_ACTIVITY_FIELDS)
    ensures r.None? ==> forall m :: j <= m < |fs| ==> fs[m].name in MEMBER_ACTIVITY_FIELDS
    decreases |fs| - j
  {
    if j == |fs| then None
    else if fs[j].name !in MEMBER_ACTIVITY_FIELDS then Some(j)
    else FirstUnknownFieldFrom(fs, j + 1)
  }

  /**
   * The member-inactivity field check: every required field present, then no field
   * outside the required set, the first such bullet in document order reported.
   */
  function CheckMemberActivityFields(fs: seq<Field>): (r: Result<map<string, ParsedBullet>, ParseError>)
    ensures r.Ok? ==> (r.value.Keys == MEMBER_ACTIVITY_FIELDS &&
      forall k :: k in r.value ==> Field(k, r.value[k]) in fs)
    ensures r.Err? ==> r.error.MissingFields? || r.error.UnknownField?
  {
    var fields := FieldMap(fs);
    var missing := MEMBER_ACTIVITY_FIELDS - fields.Keys;
    if missing != {} then Err(MissingFields(missing))
    else
      match FirstUnknownFieldFrom(fs, 0)
      case Some(k) => Err(UnknownField(fs[k].name, fs[k].bullet))
      case None =>
        assert FieldNames(fs) <= MEMBER_ACTIVITY_FIELDS by {
          forall x | x in FieldNames(fs) ensures x in MEMBER_ACTIVITY_FIELDS {
            var i :| 0 <= i < |fs| && fs[i].name == x;
          }
        }
        NoneMissing(MEMBER_ACTIVITY_FIELDS, fields.Keys);
        assert fields.Keys == MEMBER_ACTIVITY_FIELDS;
        Ok(fields)
  }

  /** The field check passes exactly when the normalized field names are the three required ones. */
  lemma MemberActivityFieldsAccepted(fs: seq<Field>)
    ensures CheckMemberActivityFields(fs).Ok? <==> FieldNames(fs) == MEMBER_ACTIVITY_FIELDS
  {
    assert FieldMap(fs).Keys == FieldNames(fs);
    NoneMissing(MEMBER_ACTIVITY_FIELDS, FieldNames(fs));
    if FieldNames(fs) == MEMBER_ACTIVITY_FIELDS {
      forall m | 0 <= m < |fs| ensures fs[m].name in MEMBER_ACTIVITY_FIELDS {
        assert fs[m].name in FieldNames(fs);
      }
      assert FirstUnknownFieldFrom(fs, 0).None?;
    }
  }

  /** A missing required field is reported, with every missing name, before any unknown field. */
  lemma MissingFieldsReported(fs: seq<Field>)
    requires !(MEMBER_ACTIVITY_FIELDS <= FieldNames(fs))
    ensures CheckMemberActivityFields(fs) == Err(MissingFields(MEMBER_ACTIVITY_FIELDS - FieldNames(fs)))
  {
    assert FieldMap(fs).Keys == FieldNames(fs);
    NoneMissing(MEMBER_ACTIVITY_FIELDS, FieldNames(fs));
  }

  /**
   * With every required field present, the first bullet in document order whose
   * normalized name is not a member-inactivity field is reported.
   */
  lemma UnknownFieldReported(fs: seq<Field>, k: nat)
    requires MEMBER_ACTIVITY_FIELDS <= FieldNames(fs)
    requires k < |fs| && fs[k].name !in MEMBER_ACTIVITY_FIELDS
    requires forall m :: 0 <= m < k ==> fs[m].name in MEMBER_ACTIVITY_FIELDS
    ensures CheckMemberActivityFields(fs) == Err(UnknownField(fs[k].name, fs[k].bullet))
  {
    assert FieldMap(fs).Keys == FieldNames(fs);
    NoneMissing(MEMBER_ACTIVITY_FIELDS, FieldNames(fs));
    assert FirstUnknownFieldFrom(fs, 0) == Some(k);
  }

  // -------------------------
  // Day counts: "N day" or "N days"
  // -------------------------

  /** The number in "N day" / "N days", any letter case, any whitespace between the two words. */
  function ParseDays(value: string): (r: Option<nat>)
    ensures r.Some? ==> var ws := Words(Lower(value));
      |ws| == 2 && IsNumeral(ws[0]) && r.value == NumeralValue(ws[0]) && (ws[1] == "day" || ws[1] == "days")
  {
    var ws := Words(Lower(value));
    if |ws| == 2 && IsNumeral(ws[0]) && (ws[1] == "day" || ws[1] == "days") then
      Some(NumeralValue(ws[0]))
    else
      None
  }

  /**
   * Any numeral, a whitespace gap and "day" or "days" in any letter case, with any
   * whitespace padding around them, parses to the numeral's value; leading zeros
   * are accepted.
   */
  lemma ParseDaysOf(a: string, d: string, gap: string, unit: string, b: string)
    requires AllSpace(a) && AllSpace(b) && gap != [] && AllSpace(gap)
    requires IsNumeral(d) && (Lower(unit) == "day" || Lower(unit) == "days")
    ensures ParseDays(a + (d + (gap + (unit + b)))) == Some(NumeralValue(d))
  {
    var u := Lower(unit);
    assert Lower(a + (d + (gap + (unit + b)))) == a + (d + (gap + (u + b))) by {
      LowerConcat(unit, b);
      LowerConcat(gap, unit + b);
      LowerConcat(d, gap + (unit + b));
      LowerConcat(a, d + (gap + (unit + b)));
      SpaceIsLower(a);
      SpaceIsLower(gap);
      SpaceIsLower(b);
      LowerOfLower(a);
      LowerOfLower(d);
      LowerOfLower(gap);
      LowerOfLower(b);
    }
    WordsOfTwo(a, d, gap, u, b);
  }

  /** Writing a count as "N day" or "N days", in any letter case, parses back to that count. */
  lemma ParseDaysRoundTrip(n: nat, unit: string)
    requires Lower(unit) == "day" || Lower(unit) == "days"
    ensures ParseDays(NatToString(n) + " " + unit) == Some(n)
  {
    var digits := NatToString(n);
    assert digits + " " + unit == "" + (digits + (" " + (unit + ""))) by {
      assert unit + "" == unit;
      assert digits + " " + unit == digits + (" " + unit);
    }
    ParseDaysOf("", digits, " ", unit, "");
    NumeralOfNat(n);
  }

  // -------------------------
  // Section parsers
  // -------------------------

  /** The id in a channel mention `<#id>`; `None` when the key is not one. */
  function ChannelMention(key: string): (r: Option<nat>)
    ensures r.Some? ==> exists d :: IsNumeral(d) && key == "<#" + d + ">" && r.value == NumeralValue(d)
  {
    if |key| >= 3 && key[..2] == "<#" && key[|key| - 1] == '>' && IsNumeral(key[2..|key| - 1]) then
      assert key == "<#" + key[2..|key| - 1] + ">";
      Some(NumeralValue(key[2..|key| - 1]))
    else
      None
  }

  /** Every `<#digits>` is a channel mention, and its id is the digits' value. */
  lemma ChannelMentionOf(d: string)
    requires IsNumeral(d)
    ensures ChannelMention("<#" + d + ">") == Some(NumeralValue(d))
  {
    var key := "<#" + d + ">";
    assert key[..2] == "<#";
    assert key[2..|key| - 1] == d;
  }

  /** A channel id written as a mention is read back. */
  lemma ChannelMentionRoundTrip(id: nat)
    ensures ChannelMention("<#" + NatToString(id) + ">") == Some(id)
  {
    ChannelMentionOf(NatToString(id));
    NumeralOfNat(id);
  }

  /**
   * One channel-pruning bullet, in the documented order: the channel mention is
   * extracted from the key, the day count from the value, and then the mentioned
   * channel is resolved.
   */
  function ParsePruningBullet(b: ParsedBullet, resolveChannel: nat -> Option<Entity>)
    : (r: Result<ChannelPruningPolicy, ParseError>)
    ensures r.Ok? <==> (ChannelMention(b.key).Some? && ParseDays(b.value).Some? &&
      resolveChannel(ChannelMention(b.key).value).Some?)
    ensures ChannelMention(b.key).None? ==> r == Err(MalformedChannelMention(b))
    ensures ChannelMention(b.key).Some? && ParseDays(b.value).None? ==> r == Err(MalformedDays(b))
    ensures (ChannelMention(b.key).Some? && ParseDays(b.value).Some? &&
      resolveChannel(ChannelMention(b.key).value).None?) ==> r == Err(UnresolvedChannel(b))
    ensures r.Ok? ==>
      r.value.channelId == resolveChannel(ChannelMention(b.key).value).value.id &&
      r.value.channelName == resolveChannel(ChannelMention(b.key).value).value.name &&
      r.value.deleteOlderThanDays == ParseDays(b.value).value
  {
    match ChannelMention(b.key)
    case None => Err(MalformedChannelMention(b))
    case Some(id) =>
      match ParseDays(b.value)
      case None => Err(MalformedDays(b))
      case Some(days) =>
        match resolveChannel(id)
        case None => Err(UnresolvedChannel(b))
        case Some(channel) => Ok(ChannelPruningPolicy(channel.name, channel.id, days))
  }

  /** The first bullet at or after `j` that does not parse as a pruning policy. */
  function FirstUnparsedFrom(bs: seq<ParsedBullet>, resolveChannel: nat -> Option<Entity>, j: nat)
    : (r: Option<nat>)
    requires j <= |bs|
    ensures r.Some? ==> (j <= r.value < |bs| && ParsePruningBullet(bs[r.value], resolveChannel).Err? &&
      forall m :: j <= m < r.value ==> ParsePruningBullet(bs[m], resolveChannel).Ok?)
    ensures r.None? ==> forall m :: j <= m < |bs| ==> ParsePruningBullet(bs[m], resolveChannel).Ok?
    decreases |bs| - j
  {
    if j == |bs| then None
    else if ParsePruningBullet(bs[j], resolveChannel).Err? then Some(j)
    else FirstUnparsedFrom(bs, resolveChannel, j + 1)
  }

  /** `_parse_channel_pruning_section`: one policy per bullet, in order; the first bad bullet fails. */
  function ParseChannelPruningSection(bs: seq<ParsedBullet>, resolveChannel: nat -> Option<Entity>)
    : (r: Result<seq<ChannelPruningPolicy>, ParseError>)
    ensures r.Ok? <==> forall i :: 0 <= i < |bs| ==> ParsePruningBullet(bs[i], resolveChannel).Ok?
    ensures r.Ok? ==> (|r.value| == |bs| &&
      forall i :: 0 <= i < |bs| ==> ParsePruningBullet(bs[i], resolveChannel) == Ok(r.value[i]))
    ensures r.Err? ==> exists i :: (0 <= i < |bs| && ParsePruningBullet(bs[i], resolveChannel) == Err(r.error) &&
      forall m :: 0 <= m < i ==> ParsePruningBullet(bs[m], resolveChannel).Ok?)
  {
    match FirstUnparsedFrom(bs, resolveChannel, 0)
    case Some(k) => Err(ParsePruningBullet(bs[k], resolveChannel).error)
    case None => Ok(seq(|bs|, i requires 0 <= i < |bs| => ParsePruningBullet(bs[i], resolveChannel).value))
  }

  /** The two role mentions and the day count, read from the checked field dictionary in that order. */
  function ReadMemberActivityFields(fields: map<string, ParsedBullet>, resolveRole: string -> Option<Entity>)
    : (r: Result<MemberActivityPolicy, ParseError>)
    requires MEMBER_ACTIVITY_FIELDS <= fields.Keys
    ensures r.Ok? ==>
      resolveRole(fields[FIELD_ACTIVE_ROLE].value) == Some(Entity(r.value.activeRoleId, r.value.activeRoleName)) &&
      resolveRole(fields[FIELD_INACTIVE_ROLE].value) == Some(Entity(r.value.inactiveRoleId, r.value.inactiveRoleName)) &&
      ParseDays(fields[FIELD_DAYS_UNTIL_INACTIVE].value) == Some(r.value.daysUntilInactive)
    ensures r.Ok? <==> (resolveRole(fields[FIELD_ACTIVE_ROLE].value).Some? &&
      resolveRole(fields[FIELD_INACTIVE_ROLE].value).Some? &&
      ParseDays(fields[FIELD_DAYS_UNTIL_INACTIVE].value).Some?)
    ensures resolveRole(fields[FIELD_ACTIVE_ROLE].value).None? ==> r == Err(UnresolvedRole(fields[FIELD_ACTIVE_ROLE]))
    ensures resolveRole(fields[FIELD_ACTIVE_ROLE].value).Some? && resolveRole(fields[FIELD_INACTIVE_ROLE].value).None? ==>
      r == Err(UnresolvedRole(fields[FIELD_INACTIVE_ROLE]))
    ensures (resolveRole(fields[FIELD_ACTIVE_ROLE].value).Some? && resolveRole(fields[FIELD_INACTIVE_ROLE].value).Some? &&
      ParseDays(fields[FIELD_DAYS_UNTIL_INACTIVE].value).None?) ==>
      r == Err(MalformedDays(fields[FIELD_DAYS_UNTIL_INACTIVE]))
  {
    var active := fields[FIELD_ACTIVE_ROLE];
    var inactive := fields[FIELD_INACTIVE_ROLE];
    var daysBullet := fields[FIELD_DAYS_UNTIL_INACTIVE];
    match resolveRole(active.value)
    case None => Err(UnresolvedRole(active))
    case Some(activeRole) =>
      match resolveRole(inactive.value)
      case None => Err(UnresolvedRole(inactive))
      case Some(inactiveRole) =>
        match ParseDays(daysBullet.value)
        case None => Err(MalformedDays(daysBullet))
        case Some(days) =>
          Ok(MemberActivityPolicy(activeRole.id, activeRole.name, inactiveRole.id, inactiveRole.name, days))
  }

  /**
   * `_parse_member_activity_section`: the field check, then the two role mentions
   * and the day count, in that order.
   */
  function ParseMemberActivitySection(bs: seq<ParsedBullet>, resolveRole: string -> Option<Entity>)
    : (r: Result<MemberActivityPolicy, ParseError>)
    ensures CheckMemberActivityFields(NameFields(bs)).Err? ==> r == Err(CheckMemberActivityFields(NameFields(bs)).error)
    ensures CheckMemberActivityFields(NameFields(bs)).Ok? ==>
      r == ReadMemberActivityFields(CheckMemberActivityFields(NameFields(bs)).value, resolveRole)
    ensures r.Ok? ==> exists a, n, d ::
      Field(FIELD_ACTIVE_ROLE, a) in NameFields(bs) &&
      resolveRole(a.value) == Some(Entity(r.value.activeRoleId, r.value.activeRoleName)) &&
      Field(FIELD_INACTIVE_ROLE, n) in NameFields(bs) &&
      resolveRole(n.value) == Some(Entity(r.value.inactiveRoleId, r.value.inactiveRoleName)) &&
      Field(FIELD_DAYS_UNTIL_INACTIVE, d) in NameFields(bs) &&
      ParseDays(d.value) == Some(r.value.daysUntilInactive)
  {
    match CheckMemberActivityFields(NameFields(bs))
    case Err(e) => Err(e)
    case Ok(fields) =>
      var r := ReadMemberActivityFields(fields, resolveRole);
      assert r.Ok? ==>
        Field(FIELD_ACTIVE_ROLE, fields[FIELD_ACTIVE_ROLE]) in NameFields(bs) &&
        Field(FIELD_INACTIVE_ROLE, fields[FIELD_INACTIVE_ROLE]) in NameFields(bs) &&
        Field(FIELD_DAYS_UNTIL_INACTIVE, fields[FIELD_DAYS_UNTIL_INACTIVE]) in NameFields(bs);
      r
  }

  // -------------------------
  // The whole parse
  // -------------------------

  /**
   * The steps after the section map and the bullet split: the two section parsers
   * run, channel pruning first, each on the split bullets of its own section. The
   * Config holds only the pruning policies. `SplitBullet` depends on the line
   * alone, so once the document-order split in `Parse` has passed, these splits
   * cannot fail (`SectionSplitsSucceed`); the root section's bullets have no parser.
   */
  function ParseSections(
    sections: map<string, seq<NormalizedLine>>,
    resolveChannel: nat -> Option<Entity>,
    resolveRole: string -> Option<Entity>
  ): Result<Config, ParseError>
    requires REQUIRED_SECTIONS <= sections.Keys
  {
    match SplitBullets(sections[SECTION_CHANNEL_PRUNING])
    case Err(e) => Err(e)
    case Ok(pruningBullets) =>
      match SplitBullets(sections[SECTION_MEMBER_INACTIVITY])
      case Err(e) => Err(e)
      case Ok(memberBullets) =>
        match ParseChannelPruningSection(pruningBullets, resolveChannel)
        case Err(e) => Err(e)
        case Ok(policies) =>
          match ParseMemberActivitySection(memberBullets, resolveRole)
          case Err(e) => Err(e)
          case Ok(_) => Ok(Config(policies))
  }

  /**
   * `parse`: text to Config. Line normalization runs first and its errors win;
   * then the section map; then every bullet under a heading is split, in document
   * order; then the section contents.
   */
  function Parse(
    text: string,
    looksLikeTag: string -> bool,
    resolveChannel: nat -> Option<Entity>,
    resolveRole: string -> Option<Entity>
  ): Result<Config, ParseError>
  {
    match NormalizeLines(text, looksLikeTag)
    case Err(e) => Err(e)
    case Ok(lines) =>
      match SectionMapOf(lines)
      case Err(e) => Err(e)
      case Ok(sections) =>
        match SplitBullets(SectionedBullets(lines, |lines|))
        case Err(e) => Err(e)
        case Ok(_) => ParseSections(sections, resolveChannel, resolveRole)
  }

  /** A disallowed construct anywhere in the text is reported before any section error. */
  lemma ParseReportsLineErrorsFirst(
    text: string,
    looksLikeTag: string -> bool,
    resolveChannel: nat -> Option<Entity>,
    resolveRole: string -> Option<Entity>
  )
    requires exists j :: 0 <= j < |SplitLines(text)| && Disallowed(SplitLines(text)[j], looksLikeTag)
    ensures NormalizeLines(text, looksLikeTag).Err?
    ensures Parse(text, looksLikeTag, resolveChannel, resolveRole) == Err(NormalizeLines(text, looksLikeTag).error)
  {
    NormalizeLinesSucceedsIff(text, looksLikeTag);
  }

  /** A document whose headings are not the three sections, once each, is rejected with the section map's error. */
  lemma ParseReportsSectionErrors(
    text: string,
    looksLikeTag: string -> bool,
    resolveChannel: nat -> Option<Entity>,
    resolveRole: string -> Option<Entity>
  )
    requires NormalizeLines(text, looksLikeTag).Ok?
    requires !EachSectionOnce(NormalizeLines(text, looksLikeTag).value)
    ensures SectionMapOf(NormalizeLines(text, looksLikeTag).value).Err?
    ensures Parse(text, looksLikeTag, resolveChannel, resolveRole) ==
      Err(SectionMapOf(NormalizeLines(text, looksLikeTag).value).error)
  {
    SectionMapSucceedsIff(NormalizeLines(text, looksLikeTag).value);
  }

  /** `SectionedBullets` only grows as more lines are taken. */
  lemma {:induction false} SectionedBulletsPrefix(lines: seq<NormalizedLine>, k: nat, n: nat)
    requires k <= n <= |lines|
    ensures SectionedBullets(lines, k) <= SectionedBullets(lines, n)
    decreases n
  {
    if k < n {
      SectionedBulletsPrefix(lines, k, n - 1);
    }
  }

  /** When every bullet under a heading among the first `n` lines holds `=`, so does every sectioned bullet. */
  lemma {:induction false} SectionedBulletsSplit(lines: seq<NormalizedLine>, n: nat)
    requires n <= |lines|
    requires forall m :: 0 <= m < n && SectionedBulletAt(lines, m) ==> '=' in lines[m].normalizedText
    ensures forall i :: 0 <= i < |SectionedBullets(lines, n)| ==> '=' in SectionedBullets(lines, n)[i].normalizedText
    decreases n
  {
    if n > 0 {
      SectionedBulletsSplit(lines, n - 1);
    }
  }

  /** Splitting the bullets under headings reports the first one in document order that has no `=`. */
  lemma FirstMalformedSectionedBullet(lines: seq<NormalizedLine>, k: nat)
    requires k < |lines| && SectionedBulletAt(lines, k) && '=' !in lines[k].normalizedText
    requires forall m :: 0 <= m < k && SectionedBulletAt(lines, m) ==> '=' in lines[m].normalizedText
    ensures SplitBullets(SectionedBullets(lines, |lines|)) == Err(MalformedBullet(lines[k]))
  {
    var all := SectionedBullets(lines, |lines|);
    var before := SectionedBullets(lines, k);
    SectionedBulletPosition(lines, k);
    SectionedBulletsSplit(lines, k);
    forall m | 0 <= m < |before|
      ensures '=' in all[m].normalizedText
    {
      assert all[m] == before[m];
    }
    FirstMalformedIs(all, |before|, 0);
  }

  /** The sectioned bullet at line `k` follows exactly the sectioned bullets above it. */
  lemma SectionedBulletPosition(lines: seq<NormalizedLine>, k: nat)
    requires k < |lines| && SectionedBulletAt(lines, k)
    ensures var all := SectionedBullets(lines, |lines|); var before := SectionedBullets(lines, k);
      |before| < |all| && all[|before|] == lines[k] && all[..|before|] == before
  {
    var before := SectionedBullets(lines, k);
    assert SectionedBullets(lines, k + 1) == before + [lines[k]];
    SectionedBulletsPrefix(lines, k + 1, |lines|);
  }

  lemma {:induction false} FirstMalformedIs(ls: seq<NormalizedLine>, i: nat, j: nat)
    requires j <= i < |ls| && '=' !in ls[i].normalizedText
    requires forall m :: j <= m < i ==> '=' in ls[m].normalizedText
    ensures FirstMalformedFrom(ls, j) == Some(i)
    decreases i - j
  {
    if j < i {
      FirstMalformedIs(ls, i, j + 1);
    }
  }

  /**
   * Bullets are split in document order: with the section map built, the first
   * bullet under a heading that has no `=` is the error, whichever section it is in.
   */
  lemma FirstMalformedBulletReported(
    text: string,
    looksLikeTag: string -> bool,
    resolveChannel: nat -> Option<Entity>,
    resolveRole: string -> Option<Entity>,
    k: nat
  )
    requires NormalizeLines(text, looksLikeTag).Ok?
    requires var lines := NormalizeLines(text, looksLikeTag).value;
      SectionMapOf(lines).Ok? && k < |lines| && SectionedBulletAt(lines, k) &&
      '=' !in lines[k].normalizedText &&
      forall m :: 0 <= m < k && SectionedBulletAt(lines, m) ==> '=' in lines[m].normalizedText
    ensures Parse(text, looksLikeTag, resolveChannel, resolveRole) ==
      Err(MalformedBullet(NormalizeLines(text, looksLikeTag).value[k]))
  {
    var lines := NormalizeLines(text, looksLikeTag).value;
    FirstMalformedSectionedBullet(lines, k);
  }

  /** A section's bullets are among the sectioned bullets, so they hold `=` when those do. */
  lemma {:induction false} SectionBulletsSplit(lines: seq<NormalizedLine>, n: nat, s: string)
    requires n <= |lines|
    requires forall i :: 0 <= i < |SectionedBullets(lines, n)| ==> '=' in SectionedBullets(lines, n)[i].normalizedText
    ensures forall i :: 0 <= i < |SectionLines(lines, n, s)| ==> '=' in SectionLines(lines, n, s)[i].normalizedText
    decreases n
  {
    if n > 0 {
      var all := SectionedBullets(lines, n);
      var sb := SectionedBullets(lines, n - 1);
      forall i | 0 <= i < |sb|
        ensures '=' in sb[i].normalizedText
      {
        assert sb[i] == all[i];
      }
      SectionBulletsSplit(lines, n - 1, s);
      if lines[n - 1].lineType == Bullet && SectionAfter(lines, n - 1) == Some(s) {
        assert all[|sb|] == lines[n - 1];
      }
    }
  }

  /** Once every bullet under a heading has been split, the split of each parsed section succeeds. */
  lemma SectionSplitsSucceed(lines: seq<NormalizedLine>)
    requires SectionMapOf(lines).Ok?
    requires SplitBullets(SectionedBullets(lines, |lines|)).Ok?
    ensures REQUIRED_SECTIONS <= SectionMapOf(lines).value.Keys
    ensures SplitBullets(SectionMapOf(lines).value[SECTION_CHANNEL_PRUNING]).Ok?
    ensures SplitBullets(SectionMapOf(lines).value[SECTION_MEMBER_INACTIVITY]).Ok?
  {
    var sections := SectionMapOf(lines).value;
    assert sections[SECTION_CHANNEL_PRUNING] == SectionLines(lines, |lines|, SECTION_CHANNEL_PRUNING);
    assert sections[SECTION_MEMBER_INACTIVITY] == SectionLines(lines, |lines|, SECTION_MEMBER_INACTIVITY);
    SectionBulletsSplit(lines, |lines|, SECTION_CHANNEL_PRUNING);
    SectionBulletsSplit(lines, |lines|, SECTION_MEMBER_INACTIVITY);
  }

  lemma ParseSectionsPolicies(
    sections: map<string, seq<NormalizedLine>>,
    resolveChannel: nat -> Option<Entity>,
    resolveRole: string -> Option<Entity>
  )
    requires REQUIRED_SECTIONS <= sections.Keys
    requires ParseSections(sections, resolveChannel, resolveRole).Ok?
    ensures var pruning := sections[SECTION_CHANNEL_PRUNING];
      var ps := ParseSections(sections, resolveChannel, resolveRole).value.channelPruningPolicies;
      |ps| == |pruning| &&
      forall i :: 0 <= i < |ps| ==>
        SplitBullet(pruning[i]).Ok? && ParsePruningBullet(SplitBullet(pruning[i]).value, resolveChannel) == Ok(ps[i])
  {
    var pruning := sections[SECTION_CHANNEL_PRUNING];
    assert SplitBullets(pruning).Ok?;
    var bullets := SplitBullets(pruning).value;
    assert ParseChannelPruningSection(bullets, resolveChannel).Ok?;
    var ps := ParseChannelPruningSection(bullets, resolveChannel).value;
    assert ParseSections(sections, resolveChannel, resolveRole).value.channelPruningPolicies == ps;
    forall i | 0 <= i < |ps|
      ensures SplitBullet(pruning[i]).Ok? && ParsePruningBullet(SplitBullet(pruning[i]).value, resolveChannel) == Ok(ps[i])
    {
      assert SplitBullet(pruning[i]) == Ok(bullets[i]);
    }
  }

  /**
   * A parsed Config comes from a document with each section heading exactly once,
   * and holds one policy per channel-pruning bullet, in document order, each
   * from that bullet's key and value.
   */
  lemma ParsePoliciesFollowPruningBullets(
    text: string,
    looksLikeTag: string -> bool,
    resolveChannel: nat -> Option<Entity>,
    resolveRole: string -> Option<Entity>
  )
    requires Parse(text, looksLikeTag, resolveChannel, resolveRole).Ok?
    ensures NormalizeLines(text, looksLikeTag).Ok?
    ensures var lines := NormalizeLines(text, looksLikeTag).value;
      var pruning := SectionLines(lines, |lines|, SECTION_CHANNEL_PRUNING);
      var ps := Parse(text, looksLikeTag, resolveChannel, resolveRole).value.channelPruningPolicies;
      EachSectionOnce(lines) && |ps| == |pruning| &&
      forall i :: 0 <= i < |ps| ==>
        SplitBullet(pruning[i]).Ok? && ParsePruningBullet(SplitBullet(pruning[i]).value, resolveChannel) == Ok(ps[i])
  {
    var lines := NormalizeLines(text, looksLikeTag).value;
    ParsedThroughSections(text, looksLikeTag, resolveChannel, resolveRole);
    SectionMapPolicies(lines, resolveChannel, resolveRole);
  }

  /** The section-map level of `ParsePoliciesFollowPruningBullets`. */
  lemma SectionMapPolicies(
    lines: seq<NormalizedLine>,
    resolveChannel: nat -> Option<Entity>,
    resolveRole: string -> Option<Entity>
  )
    requires SectionMapOf(lines).Ok?
    requires REQUIRED_SECTIONS <= SectionMapOf(lines).value.Keys
    requires ParseSections(SectionMapOf(lines).value, resolveChannel, resolveRole).Ok?
    ensures var pruning := SectionLines(lines, |lines|, SECTION_CHANNEL_PRUNING);
      var ps := ParseSections(SectionMapOf(lines).value, resolveChannel, resolveRole).value.channelPruningPolicies;
      EachSectionOnce(lines) && |ps| == |pruning| &&
      forall i :: 0 <= i < |ps| ==>
        SplitBullet(pruning[i]).Ok? && ParsePruningBullet(SplitBullet(pruning[i]).value, resolveChannel) == Ok(ps[i])
  {
    SectionMapSucceedsIff(lines);
    var sections := SectionMapOf(lines).value;
    assert sections[SECTION_CHANNEL_PRUNING] == SectionLines(lines, |lines|, SECTION_CHANNEL_PRUNING);
    ParseSectionsPolicies(sections, resolveChannel, resolveRole);
  }

  /**
   * A parsed document has a well-formed member-inactivity section: its bullets
   * split and the member-inactivity parser accepts them.
   */
  lemma ParsedMemberSectionAccepted(
    text: string,
    looksLikeTag: string -> bool,
    resolveChannel: nat -> Option<Entity>,
    resolveRole: string -> Option<Entity>
  )
    requires Parse(text, looksLikeTag, resolveChannel, resolveRole).Ok?
    ensures NormalizeLines(text, looksLikeTag).Ok?
    ensures var lines := NormalizeLines(text, looksLikeTag).value;
      var members := SectionLines(lines, |lines|, SECTION_MEMBER_INACTIVITY);
      SplitBullets(members).Ok? && ParseMemberActivitySection(SplitBullets(members).value, resolveRole).Ok?
  {
    ParsedThroughSections(text, looksLikeTag, resolveChannel, resolveRole);
    var lines := NormalizeLines(text, looksLikeTag).value;
    assert SectionMapOf(lines).value[SECTION_MEMBER_INACTIVITY] == SectionLines(lines, |lines|, SECTION_MEMBER_INACTIVITY);
  }

  /** The section contents of a document whose lines, section map and bullet split passed. */
  predicate SectionsReached(text: string, looksLikeTag: string -> bool) {
    NormalizeLines(text, looksLikeTag).Ok? &&
    var lines := NormalizeLines(text, looksLikeTag).value;
    SectionMapOf(lines).Ok? && SplitBullets(SectionedBullets(lines, |lines|)).Ok?
  }

  /** The split bullets of section `s` of a document that reached its sections. */
  function SectionBullets(text: string, looksLikeTag: string -> bool, s: string): (r: seq<ParsedBullet>)
    requires SectionsReached(text, looksLikeTag)
    requires s == SECTION_CHANNEL_PRUNING || s == SECTION_MEMBER_INACTIVITY
    ensures var lines := NormalizeLines(text, looksLikeTag).value;
      SplitBullets(SectionLines(lines, |lines|, s)) == Ok(r)
  {
    var lines := NormalizeLines(text, looksLikeTag).value;
    SectionSplitsSucceed(lines);
    assert SectionMapOf(lines).value[s] == SectionLines(lines, |lines|, s);
    SplitBullets(SectionLines(lines, |lines|, s)).value
  }

  /** Once the section contents are reached, `Parse` is the two section parsers, channel pruning first. */
  lemma ReachedSectionsParse(
    text: string,
    looksLikeTag: string -> bool,
    resolveChannel: nat -> Option<Entity>,
    resolveRole: string -> Option<Entity>
  )
    requires SectionsReached(text, looksLikeTag)
    ensures Parse(text, looksLikeTag, resolveChannel, resolveRole) ==
      match ParseChannelPruningSection(SectionBullets(text, looksLikeTag, SECTION_CHANNEL_PRUNING), resolveChannel)
      case Err(e) => Err(e)
      case Ok(policies) =>
        match ParseMemberActivitySection(SectionBullets(text, looksLikeTag, SECTION_MEMBER_INACTIVITY), resolveRole)
        case Err(e) => Err(e)
        case Ok(_) => Ok(Config(policies))
  {
    var lines := NormalizeLines(text, looksLikeTag).value;
    ReachedParseIsSections(text, looksLikeTag, resolveChannel, resolveRole);
    SectionsParseOrder(lines, resolveChannel, resolveRole);
  }

  lemma ReachedParseIsSections(
    text: string,
    looksLikeTag: string -> bool,
    resolveChannel: nat -> Option<Entity>,
    resolveRole: string -> Option<Entity>
  )
    requires SectionsReached(text, looksLikeTag)
    ensures REQUIRED_SECTIONS <= SectionMapOf(NormalizeLines(text, looksLikeTag).value).value.Keys
    ensures Parse(text, looksLikeTag, resolveChannel, resolveRole) ==
      ParseSections(SectionMapOf(NormalizeLines(text, looksLikeTag).value).value, resolveChannel, resolveRole)
  {
    SectionSplitsSucceed(NormalizeLines(text, looksLikeTag).value);
  }

  /** The section-map level of `ReachedSectionsParse`. */
  lemma SectionsParseOrder(
    lines: seq<NormalizedLine>,
    resolveChannel: nat -> Option<Entity>,
    resolveRole: string -> Option<Entity>
  )
    requires SectionMapOf(lines).Ok? && SplitBullets(SectionedBullets(lines, |lines|)).Ok?
    ensures REQUIRED_SECTIONS <= SectionMapOf(lines).value.Keys
    ensures SplitBullets(SectionLines(lines, |lines|, SECTION_CHANNEL_PRUNING)).Ok?
    ensures SplitBullets(SectionLines(lines, |lines|, SECTION_MEMBER_INACTIVITY)).Ok?
    ensures ParseSections(SectionMapOf(lines).value, resolveChannel, resolveRole) ==
      match ParseChannelPruningSection(SplitBullets(SectionLines(lines, |lines|, SECTION_CHANNEL_PRUNING)).value, resolveChannel)
      case Err(e) => Err(e)
      case Ok(policies) =>
        match ParseMemberActivitySection(SplitBullets(SectionLines(lines, |lines|, SECTION_MEMBER_INACTIVITY)).value, resolveRole)
        case Err(e) => Err(e)
        case Ok(_) => Ok(Config(policies))
  {
    SectionSplitsSucceed(lines);
    var sections := SectionMapOf(lines).value;
    assert sections[SECTION_CHANNEL_PRUNING] == SectionLines(lines, |lines|, SECTION_CHANNEL_PRUNING);
    assert sections[SECTION_MEMBER_INACTIVITY] == SectionLines(lines, |lines|, SECTION_MEMBER_INACTIVITY);
  }

  /**
   * Channel pruning is parsed first: once the section contents are reached, its
   * error is the parse error, whatever the member-inactivity section holds.
   */
  lemma PruningErrorReported(
    text: string,
    looksLikeTag: string -> bool,
    resolveChannel: nat -> Option<Entity>,
    resolveRole: string -> Option<Entity>
  )
    requires SectionsReached(text, looksLikeTag)
    requires ParseChannelPruningSection(SectionBullets(text, looksLikeTag, SECTION_CHANNEL_PRUNING), resolveChannel).Err?
    ensures Parse(text, looksLikeTag, resolveChannel, resolveRole) ==
      Err(ParseChannelPruningSection(SectionBullets(text, looksLikeTag, SECTION_CHANNEL_PRUNING), resolveChannel).error)
  {
    ReachedSectionsParse(text, looksLikeTag, resolveChannel, resolveRole);
  }

  /**
   * A bad member-inactivity section fails the parse: with channel pruning parsed,
   * the member-inactivity parser's error (a missing or unknown field, an
   * unresolved role, a bad day count) is the parse error.
   */
  lemma MemberSectionErrorReported(
    text: string,
    looksLikeTag: string -> bool,
    resolveChannel: nat -> Option<Entity>,
    resolveRole: string -> Option<Entity>
  )
    requires SectionsReached(text, looksLikeTag)
    requires ParseChannelPruningSection(SectionBullets(text, looksLikeTag, SECTION_CHANNEL_PRUNING), resolveChannel).Ok?
    requires ParseMemberActivitySection(SectionBullets(text, looksLikeTag, SECTION_MEMBER_INACTIVITY), resolveRole).Err?
    ensures Parse(text, looksLikeTag, resolveChannel, resolveRole) ==
      Err(ParseMemberActivitySection(SectionBullets(text, looksLikeTag, SECTION_MEMBER_INACTIVITY), resolveRole).error)
  {
    ReachedSectionsParse(text, looksLikeTag, resolveChannel, resolveRole);
  }

  /** A successful parse went through every step, and its Config is what the section parsers built. */
  lemma ParsedThroughSections(
    text: string,
    looksLikeTag: string -> bool,
    resolveChannel: nat -> Option<Entity>,
    resolveRole: string -> Option<Entity>
  )
    requires Parse(text, looksLikeTag, resolveChannel, resolveRole).Ok?
    ensures NormalizeLines(text, looksLikeTag).Ok?
    ensures SectionMapOf(NormalizeLines(text, looksLikeTag).value).Ok?
    ensures var lines := NormalizeLines(text, looksLikeTag).value;
      var sections := SectionMapOf(lines).value;
      REQUIRED_SECTIONS <= sections.Keys &&
      Parse(text, looksLikeTag, resolveChannel, resolveRole) == ParseSections(sections, resolveChannel, resolveRole)
  {
  }
}
