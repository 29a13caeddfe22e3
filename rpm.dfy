/**
 * The rpm query helpers of atomic_reactor/utils/rpm.py: the `--qf`
 * arguments that make `rpm -qa` print one line per package with the
 * values of chosen header tags, and the parser that turns those lines
 * into component records.
 */
module Rpm {
  import opened Wrappers
  import opened Text

  /** `image_component_rpm_tags`: the tags queried when the caller names none. */
  const ImageComponentRpmTags: seq<string> := [
    "NAME", "VERSION", "RELEASE", "ARCH", "EPOCH", "SIZE", "SIGMD5", "BUILDTIME",
    "SIGPGP:pgpsig", "SIGGPG:pgpsig", "DSAHEADER:pgpsig", "RSAHEADER:pgpsig"
  ]

  /** What rpm prints for a tag the package does not have. */
  const NoneValue := "(none)"

  /** The text before the key id in rpm's rendering of a signature. */
  const SignatureMarker := "Key ID "

  /** The name of rpm's pseudo-packages that hold imported GPG keys. */
  const GpgPubkey := "gpg-pubkey"

  /** `tags=None` stands for `image_component_rpm_tags`. */
  function TagsOrDefault(tags: Option<seq<string>>): seq<string>
  {
    if tags.None? then ImageComponentRpmTags else tags.value
  }

  // ----- rpm_qf_args -----

  /** `"%%{%s}" % tag`: the query-format directive for one tag. */
  function Directive(tag: string): string
  {
    "%{" + tag + "}"
  }

  function Directives(tags: seq<string>): (r: seq<string>)
    ensures |r| == |tags| && forall k :: 0 <= k < |tags| ==> r[k] == Directive(tags[k])
  {
    if tags == [] then [] else [Directive(tags[0])] + Directives(tags[1..])
  }

  /** `rpm_qf_args`: the directives joined by the separator, ended by a backslash-n escape, quoted after `-qa --qf`. */
  function RpmQfArgs(tags: Option<seq<string>>, separator: string): string
  {
    "-qa --qf '" + Join(Directives(TagsOrDefault(tags)), separator) + "\\n'"
  }

  /**
   * The query format reads back as one directive per tag, in order: with a
   * one-character separator that occurs in no tag (and is not part of the
   * `%{` `}` brackets), splitting the format on it gives each tag's
   * directive.
   */
  lemma {:induction false} RpmQfArgsFormat(tags: Option<seq<string>>, c: char)
    requires |TagsOrDefault(tags)| >= 1
    requires c != '%' && c != '{' && c != '}'
    requires forall k :: 0 <= k < |TagsOrDefault(tags)| ==> c !in TagsOrDefault(tags)[k]
    ensures var format := Join(Directives(TagsOrDefault(tags)), [c]);
      && RpmQfArgs(tags, [c]) == "-qa --qf '" + format + "\\n'"
      && Split(format, [c]) == Directives(TagsOrDefault(tags))
  {
    var ds := Directives(TagsOrDefault(tags));
    forall k | 0 <= k < |ds| ensures c !in ds[k] {
      DirectiveAvoids(TagsOrDefault(tags)[k], c);
    }
    SplitJoin(ds, c);
  }

  lemma {:induction false} DirectiveAvoids(tag: string, c: char)
    requires c != '%' && c != '{' && c != '}' && c !in tag
    ensures c !in Directive(tag)
  {
    var d := Directive(tag);
    forall i | 0 <= i < |d| ensures d[i] != c {
      if 2 <= i < |d| - 1 { assert d[i] == tag[i - 2]; }
    }
  }

  /** With the default tags and separator, the format lists the twelve directives joined by ";". */
  lemma {:induction false} RpmQfArgsDefault()
    ensures var format := Join(Directives(ImageComponentRpmTags), ";");
      && RpmQfArgs(None, ";") == "-qa --qf '" + format + "\\n'"
      && Split(format, ";") == Directives(ImageComponentRpmTags)
      && |Split(format, ";")| == 12
  {
    RpmQfArgsFormat(None, ';');
  }

  // ----- parse_rpm_output -----

  /** `s.rstrip('\n')`: `s` without its trailing newlines. */
  function StripNewlines(s: string): (r: string)
    ensures |r| <= |s| && r == s[..|r|]
    ensures r == [] || r[|r| - 1] != '\n'
    ensures forall i :: |r| <= i < |s| ==> s[i] == '\n'
    decreases |s|
  {
    if |s| > 0 && s[|s| - 1] == '\n' then StripNewlines(s[..|s| - 1]) else s
  }

  /** `tags.index(tag)`: the first position of `tag`, None where Python raises ValueError. */
  function IndexOf(tags: seq<string>, tag: string): (r: Option<nat>)
    ensures r.None? <==> tag !in tags
    ensures r.Some? ==> r.value < |tags| && tags[r.value] == tag
    ensures r.Some? ==> forall j :: 0 <= j < r.value ==> tags[j] != tag
  {
    if tags == [] then None
    else if tags[0] == tag then Some(0)
    else match IndexOf(tags[1..], tag)
      case None => None
      case Some(i) => Some(i + 1)
  }

  /** The `field` helper: the value of `tag` on a line split into `fields`; None when the tag is not queried or rpm printed "(none)". */
  function Field(fields: seq<string>, tags: seq<string>, tag: string): (r: Option<string>)
    requires |fields| >= |tags|
    ensures r.None? <==> tag !in tags || fields[IndexOf(tags, tag).value] == NoneValue
    ensures r.Some? ==> r.value == fields[IndexOf(tags, tag).value] && r.value != NoneValue
  {
    match IndexOf(tags, tag)
    case None => None
    case Some(i) => if fields[i] == NoneValue then None else Some(fields[i])
  }

  /** Python's `a or b or c or d`: the first truthy operand, else the last one. */
  function FirstTruthy(vs: seq<Option<string>>): Option<string>
    requires |vs| >= 1
  {
    if |vs| == 1 || Truthy(vs[0]) then vs[0] else FirstTruthy(vs[1..])
  }

  /** Python's `or` chain yields its first truthy operand; with none, its last operand. */
  lemma {:induction false} FirstTruthySpec(vs: seq<Option<string>>)
    requires |vs| >= 1
    ensures forall i :: 0 <= i < |vs| && Truthy(vs[i]) && (forall j :: 0 <= j < i ==> !Truthy(vs[j])) ==>
      FirstTruthy(vs) == vs[i]
    ensures (forall j :: 0 <= j < |vs| ==> !Truthy(vs[j])) ==> FirstTruthy(vs) == vs[|vs| - 1]
    decreases |vs|
  {
    forall i | 0 <= i < |vs| && Truthy(vs[i]) && (forall j :: 0 <= j < i ==> !Truthy(vs[j]))
      ensures FirstTruthy(vs) == vs[i]
    {
      FirstTruthyIs(vs, i);
    }
    if |vs| > 1 && !Truthy(vs[0]) {
      FirstTruthySpec(vs[1..]);
      assert forall j :: 1 <= j < |vs| ==> vs[j] == vs[1..][j - 1];
    }
  }

  /** The signature: the first truthy value of the four signature tags, with any text up to the first "Key ID " removed. */
  function Signature(fields: seq<string>, tags: seq<string>): Option<string>
    requires |fields| >= |tags|
  {
    var signature := FirstTruthy([
      Field(fields, tags, "SIGPGP:pgpsig"), Field(fields, tags, "SIGGPG:pgpsig"),
      Field(fields, tags, "DSAHEADER:pgpsig"), Field(fields, tags, "RSAHEADER:pgpsig")]);
    if Truthy(signature) then
      var parts := SplitOnce(signature.value, SignatureMarker);
      if |parts| > 1 then Some(parts[1]) else signature
    else signature
  }

  /** The exceptions `parse_rpm_output` lets escape. */
  datatype RpmError =
    | EmptySeparator          // str.split("") raises ValueError
    | InvalidEpoch(text: string)  // int() of an epoch that is not a decimal integer

  /** The epoch: None when absent, else the field's integer value. */
  function Epoch(value: Option<string>): (r: Result<Option<int>, RpmError>)
  {
    match value
    case None => Ok(None)
    case Some(text) =>
      match ParseInt(text)
      case None => Err(InvalidEpoch(text))
      case Some(i) => Ok(Some(i))
  }

  /** A component record of the parsed output; `kind` is the record's `'type'` key. */
  datatype Component = Component(
    kind: string,
    name: Option<string>,
    version: Option<string>,
    release: Option<string>,
    arch: Option<string>,
    sigmd5: Option<string>,
    signature: Option<string>,
    epoch: Option<int>)

  /** The fields of one output line: the line without trailing newlines, split on the separator. */
  function LineFields(line: string, separator: string): seq<string>
    requires |separator| > 0
  {
    Split(StripNewlines(line), separator)
  }

  /**
   * The component of one output line: None for a short line or a
   * `gpg-pubkey` package; splitting on "" raises.
   */
  function ParseLine(line: string, tags: seq<string>, separator: string): (r: Result<Option<Component>, RpmError>)
  {
    if separator == "" then Err(EmptySeparator)
    else
      var fields := LineFields(line, separator);
      if |fields| < |tags| then Ok(None)
      else
        var component := Component("rpm",
          Field(fields, tags, "NAME"), Field(fields, tags, "VERSION"), Field(fields, tags, "RELEASE"),
          Field(fields, tags, "ARCH"), Field(fields, tags, "SIGMD5"), Signature(fields, tags), None);
        match Epoch(Field(fields, tags, "EPOCH"))
        case Err(e) => Err(e)
        case Ok(epoch) =>
          if component.name == Some(GpgPubkey) then Ok(None) else Ok(Some(component.(epoch := epoch)))
  }

  /** How each line is read. */
  type LineParser = string -> Result<Option<Component>, RpmError>

  function ParserFor(tags: seq<string>, separator: string): LineParser
  {
    line => ParseLine(line, tags, separator)
  }

  /** The components `parse` yields for `lines`, in order; the first line that raises decides the error. */
  function Gather(lines: seq<string>, parse: LineParser): Result<seq<Component>, RpmError>
    decreases |lines|
  {
    if lines == [] then Ok([])
    else
      match Gather(lines[..|lines| - 1], parse)
      case Err(e) => Err(e)
      case Ok(prev) =>
        match parse(lines[|lines| - 1])
        case Err(e) => Err(e)
        case Ok(c) => Ok(prev + if c.Some? then [c.value] else [])
  }

  /** What `parse_rpm_output` returns for `lines`. */
  function ParseAll(lines: seq<string>, tags: seq<string>, separator: string): Result<seq<Component>, RpmError>
  {
    Gather(lines, ParserFor(tags, separator))
  }

  /**
   * The body of the loop of `parse_rpm_output` for one line: split it into
   * fields, skip it when it is short, read the signature and the epoch,
   * and keep the component unless it is a `gpg-pubkey`.
   */
  method ParseRpmLine(line: string, tags: seq<string>, separator: string)
    returns (r: Result<Option<Component>, RpmError>)
    ensures r == ParseLine(line, tags, separator)
  {
    if separator == "" {
      return Err(EmptySeparator);
    }
    var fields := Split(StripNewlines(line), separator);
    if |fields| < |tags| {
      return Ok(None);
    }
    var signature := FirstTruthy([
      Field(fields, tags, "SIGPGP:pgpsig"), Field(fields, tags, "SIGGPG:pgpsig"),
      Field(fields, tags, "DSAHEADER:pgpsig"), Field(fields, tags, "RSAHEADER:pgpsig")]);
    if Truthy(signature) {
      var parts := SplitOnce(signature.value, SignatureMarker);
      if |parts| > 1 {
        signature := Some(parts[1]);
      }
    }
    assert signature == Signature(fields, tags);
    var component := Component("rpm",
      Field(fields, tags, "NAME"), Field(fields, tags, "VERSION"), Field(fields, tags, "RELEASE"),
      Field(fields, tags, "ARCH"), Field(fields, tags, "SIGMD5"), signature, None);
    var epoch := Field(fields, tags, "EPOCH");
    var value: Option<int> := None;
    if epoch.Some? {
      value := ParseInt(epoch.value);
      if value.None? {
        assert Epoch(epoch) == Err(InvalidEpoch(epoch.value));
        return Err(InvalidEpoch(epoch.value));
      }
    }
    assert Epoch(epoch) == Ok(value);
    component := component.(epoch := value);
    if component.name != Some(GpgPubkey) {
      return Ok(Some(component));
    }
    return Ok(None);
  }

  /** `parse_rpm_output`: the components of the output lines, in order. */
  method ParseRpmOutput(output: seq<string>, tags: Option<seq<string>>, separator: string)
    returns (r: Result<seq<Component>, RpmError>)
    ensures r == ParseAll(output, TagsOrDefault(tags), separator)
  {
    var tagList := TagsOrDefault(tags);
    ghost var parse := ParserFor(tagList, separator);
    var components: seq<Component> := [];
    for i := 0 to |output|
      invariant Gather(output[..i], parse) == Ok(components)
    {
      assert output[..i + 1][..i] == output[..i];
      var component := ParseRpmLine(output[i], tagList, separator);
      assert parse(output[i]) == component;
      if component.Err? {
        GatherErrorPersists(output, i + 1, parse);
        return Err(component.error);
      }
      if component.value.Some? {
        components := components + [component.value.value];
      } else {
        assert components + [] == components;
      }
    }
    assert output[..|output|] == output;
    return Ok(components);
  }

  // ----- Properties -----

  /** Once a prefix of the lines raises, so does the whole output, with the same error. */
  lemma {:induction false} GatherErrorPersists(lines: seq<string>, n: nat, parse: LineParser)
    requires n <= |lines| && Gather(lines[..n], parse).Err?
    ensures Gather(lines, parse) == Gather(lines[..n], parse)
    decreases |lines| - n
  {
    if n < |lines| {
      var longer := lines[..n + 1];
      assert longer[..|longer| - 1] == lines[..n];
      GatherErrorPersists(lines, n + 1, parse);
    } else {
      assert lines[..n] == lines;
    }
  }

  /** Parsing never yields more components than lines. */
  lemma {:induction false} GatherLength(lines: seq<string>, parse: LineParser)
    requires Gather(lines, parse).Ok?
    ensures |Gather(lines, parse).value| <= |lines|
    decreases |lines|
  {
    if lines != [] {
      GatherLength(lines[..|lines| - 1], parse);
    }
  }

  /** Every component comes from a line that parses to it. */
  lemma {:induction false} GatherFrom(lines: seq<string>, parse: LineParser)
    requires Gather(lines, parse).Ok?
    ensures forall c :: c in Gather(lines, parse).value ==>
      exists i :: 0 <= i < |lines| && parse(lines[i]) == Ok(Some(c))
    decreases |lines|
  {
    if lines != [] {
      var init := lines[..|lines| - 1];
      GatherFrom(init, parse);
      forall c | c in Gather(init, parse).value
        ensures exists i :: 0 <= i < |lines| && parse(lines[i]) == Ok(Some(c))
      {
        var i :| 0 <= i < |init| && parse(init[i]) == Ok(Some(c));
        assert lines[i] == init[i];
      }
    }
  }

  /**
   * Parsing works line by line and keeps the input order: a concatenation
   * parses exactly when both parts do, into the concatenation of their
   * components, and an error in the first part is the error of the whole.
   */
  lemma {:induction false} GatherConcat(a: seq<string>, b: seq<string>, parse: LineParser)
    ensures Gather(a + b, parse).Ok? <==> Gather(a, parse).Ok? && Gather(b, parse).Ok?
    ensures Gather(a + b, parse).Ok? ==> Gather(a + b, parse).value == Gather(a, parse).value + Gather(b, parse).value
    ensures Gather(a, parse).Err? ==> Gather(a + b, parse) == Gather(a, parse)
    decreases |b|
  {
    if Gather(a, parse).Err? {
      assert (a + b)[..|a|] == a;
      GatherErrorPersists(a + b, |a|, parse);
    }
    if b == [] {
      assert a + b == a;
      if Gather(a, parse).Ok? {
        assert Gather(a, parse).value + [] == Gather(a, parse).value;
      }
    } else {
      var b' := b[..|b| - 1];
      assert (a + b)[..|a + b| - 1] == a + b';
      assert (a + b)[|a + b| - 1] == b[|b| - 1];
      GatherConcat(a, b', parse);
      var x, y' := Gather(a, parse), Gather(b', parse);
      var last := parse(b[|b| - 1]);
      if x.Ok? && y'.Ok? && last.Ok? {
        var tail := if last.value.Some? then [last.value.value] else [];
        assert x.value + y'.value + tail == x.value + (y'.value + tail);
      }
    }
  }

  /** One line gives its own component, nothing, or its error. */
  lemma {:induction false} GatherSingle(line: string, parse: LineParser)
    ensures Gather([line], parse) ==
      match parse(line)
      case Err(e) => Err(e)
      case Ok(c) => Ok(if c.Some? then [c.value] else [])
  {
    assert [line][..0] == [];
    var c := parse(line);
    if c.Ok? {
      var tail := if c.value.Some? then [c.value.value] else [];
      assert [] + tail == tail;
    }
  }

  /** Every parsed component is an "rpm" record whose name is not `gpg-pubkey`. */
  lemma {:induction false} ParseAllKinds(lines: seq<string>, tags: seq<string>, separator: string)
    requires ParseAll(lines, tags, separator).Ok?
    ensures forall c :: c in ParseAll(lines, tags, separator).value ==> c.kind == "rpm" && c.name != Some(GpgPubkey)
  {
    var parse := ParserFor(tags, separator);
    GatherFrom(lines, parse);
    forall c | c in ParseAll(lines, tags, separator).value
      ensures c.kind == "rpm" && c.name != Some(GpgPubkey)
    {
      var i :| 0 <= i < |lines| && parse(lines[i]) == Ok(Some(c));
      assert ParseLine(lines[i], tags, separator) == Ok(Some(c));
    }
  }

  /** What one line yields: nothing for a short line or a `gpg-pubkey`, an error for a bad epoch, else its record. */
  lemma {:induction false} ParseLineSpec(line: string, tags: seq<string>, separator: string)
    requires separator != ""
    ensures var fields := LineFields(line, separator);
      var r := ParseLine(line, tags, separator);
      && (|fields| < |tags| ==> r == Ok(None))
      && (r.Err? <==> |fields| >= |tags| && Field(fields, tags, "EPOCH").Some?
                      && ParseInt(Field(fields, tags, "EPOCH").value).None?)
      && (r.Err? ==> r.error == InvalidEpoch(Field(fields, tags, "EPOCH").value))
      && (r.Ok? && r.value.None? ==> |fields| < |tags| || Field(fields, tags, "NAME") == Some(GpgPubkey))
      && (r.Ok? && r.value.Some? ==>
            && |fields| >= |tags|
            && r.value.value == Component("rpm",
                 Field(fields, tags, "NAME"), Field(fields, tags, "VERSION"), Field(fields, tags, "RELEASE"),
                 Field(fields, tags, "ARCH"), Field(fields, tags, "SIGMD5"), Signature(fields, tags),
                 Epoch(Field(fields, tags, "EPOCH")).value)
            && r.value.value.name != Some(GpgPubkey))
  {
  }

  /** The epoch is None exactly when the field is, and otherwise the field's integer value. */
  lemma {:induction false} EpochSpec(value: Option<string>)
    ensures Epoch(value) == Ok(None) <==> value.None?
    ensures value.Some? && ParseInt(value.value).Some? ==> Epoch(value) == Ok(Some(ParseInt(value.value).value))
    ensures value.Some? && ParseInt(value.value).None? ==> Epoch(value) == Err(InvalidEpoch(value.value))
  {
  }

  /** An epoch rpm printed from an integer reads back as that integer. */
  lemma {:induction false} EpochRoundTrip(i: int)
    ensures Epoch(Some(IntToString(i))) == Ok(Some(i))
  {
    ParseIntToString(i);
  }

  /**
   * The signature: when none of the four tags has a non-empty value, the
   * last tag's value (None or ""); otherwise the first non-empty one, cut
   * after its first "Key ID " when it has one.
   */
  lemma {:induction false} SignatureSpec(fields: seq<string>, tags: seq<string>)
    requires |fields| >= |tags|
    ensures var vs := [
        Field(fields, tags, "SIGPGP:pgpsig"), Field(fields, tags, "SIGGPG:pgpsig"),
        Field(fields, tags, "DSAHEADER:pgpsig"), Field(fields, tags, "RSAHEADER:pgpsig")];
      var sig := Signature(fields, tags);
      && ((forall j :: 0 <= j < 4 ==> !Truthy(vs[j])) ==> sig == vs[3])
      && (forall i :: 0 <= i < 4 && Truthy(vs[i]) && (forall j :: 0 <= j < i ==> !Truthy(vs[j])) ==>
            var s := vs[i].value;
            && sig.Some?
            && (!Contains(s, SignatureMarker) ==> sig.value == s)
            && (Contains(s, SignatureMarker) ==>
                  exists before :: s == before + SignatureMarker + sig.value && !Contains(before, SignatureMarker)))
  {
    var vs := [
        Field(fields, tags, "SIGPGP:pgpsig"), Field(fields, tags, "SIGGPG:pgpsig"),
        Field(fields, tags, "DSAHEADER:pgpsig"), Field(fields, tags, "RSAHEADER:pgpsig")];
    var first := FirstTruthy(vs);
    FirstTruthySpec(vs);
    if Truthy(first) {
      var parts := SplitOnce(first.value, SignatureMarker);
      if |parts| > 1 {
        assert first.value == parts[0] + SignatureMarker + parts[1];
      }
    }
  }

  /** The first truthy operand is the value of the `or` chain. */
  lemma {:induction false} FirstTruthyIs(vs: seq<Option<string>>, i: nat)
    requires i < |vs| && Truthy(vs[i]) && forall j :: 0 <= j < i ==> !Truthy(vs[j])
    ensures FirstTruthy(vs) == vs[i]
    decreases i
  {
    if i > 0 {
      assert !Truthy(vs[0]);
      FirstTruthyIs(vs[1..], i - 1);
    }
  }

  /** `x` occurs in no piece and is not the separator, so it does not occur in the joined text. */
  lemma {:induction false} JoinAvoids(parts: seq<string>, c: char, x: char)
    requires x != c && forall k :: 0 <= k < |parts| ==> x !in parts[k]
    ensures x !in Join(parts, [c])
    decreases |parts|
  {
    if |parts| > 1 {
      JoinAvoids(parts[1..], c, x);
      assert forall k :: 0 <= k < |parts| - 1 ==> parts[1..][k] == parts[k + 1];
    }
  }

  /**
   * A line rpm prints for values that contain neither the separator nor a
   * newline, joined by the separator and ended by a newline, splits back
   * into exactly those values.
   */
  lemma {:induction false} LineRoundTrip(values: seq<string>, c: char)
    requires |values| >= 1 && c != '\n'
    requires forall k :: 0 <= k < |values| ==> c !in values[k] && '\n' !in values[k]
    ensures LineFields(Join(values, [c]) + "\n", [c]) == values
  {
    var joined := Join(values, [c]);
    JoinAvoids(values, c, '\n');
    assert (joined + "\n")[..|joined|] == joined;
    assert StripNewlines(joined + "\n") == StripNewlines(joined);
    if joined != [] {
      assert joined[|joined| - 1] in joined;
    }
    SplitJoin(values, c);
  }
}
