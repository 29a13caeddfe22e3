/**
 * The content of a remote host's slot file, `SlotData` in
 * atomic_reactor/utils/remote_host.py: either empty (the slot is free) or
 * "prid@timestamp", naming the pipeline run that holds the slot and when it
 * took it.
 */
module SlotCodec {
  import opened Wrappers
  import opened Text

  /** How an f-string renders an optional string: `None` prints as "None". */
  function Render(v: Option<string>): string
  {
    if v.Some? then v.value else "None"
  }

  datatype SlotData = SlotData(prid: Option<string>, timestamp: Option<string>)
  {
    /** `is_empty`: neither the pipeline-run id nor the timestamp is truthy. */
    predicate IsEmpty()
    {
      !Truthy(prid) && !Truthy(timestamp)
    }

    /**
     * `is_valid`: empty data, or a pipeline-run id without "@" and a
     * timestamp that the ISO-datetime parser `isIso` accepts.
     */
    predicate IsValid(isIso: string -> bool)
    {
      IsEmpty() || (prid.Some? && '@' !in prid.value && timestamp.Some? && isIso(timestamp.value))
    }

    /** `to_string`: "" for empty data, else "prid@timestamp". */
    function ToString(): string
    {
      if IsEmpty() then "" else Render(prid) + "@" + Render(timestamp)
    }
  }

  /** The first piece of a split on "@" is the text before the first "@"; the others, joined, are the rest without "@". */
  lemma {:induction false} SplitAtSign(str: string)
    ensures var v := Split(str, "@");
      && '@' !in v[0] && '@' !in Join(v[1..], "")
      && ('@' !in str ==> v[0] == str && Join(v[1..], "") == "")
      && ('@' in str ==>
            |v[0]| < |str| && str[..|v[0]|] == v[0] && str[|v[0]|] == '@'
            && Join(v[1..], "") == Without(str[|v[0]| + 1..], '@'))
  {
    var f := FindFirst(str, "@");
    if f.None? {
      SplitWithoutSign(str);
    } else {
      SplitAtFirstSign(str, f.value);
    }
  }

  lemma {:induction false} SplitWithoutSign(str: string)
    requires FindFirst(str, "@").None?
    ensures '@' !in str && Split(str, "@") == [str]
  {
    forall i | 0 <= i < |str| ensures str[i] != '@' { OccursAtChar(str, '@', i); }
  }

  lemma {:induction false} SplitAtFirstSign(str: string, i: nat)
    requires FindFirst(str, "@") == Some(i)
    ensures var v := Split(str, "@");
      && i < |str| && str[i] == '@' && v[0] == str[..i] && '@' !in v[0]
      && Join(v[1..], "") == Without(str[i + 1..], '@') && '@' !in Join(v[1..], "")
  {
    OccursAtChar(str, '@', i);
    WithoutRemoves(str[i + 1..], '@');
    var rest := str[i + 1..];
    var v := Split(str, "@");
    assert v == [str[..i]] + Split(rest, "@");
    assert v[1..] == Split(rest, "@");
    forall k | 0 <= k < i ensures str[k] != '@' { OccursAtChar(str, '@', k); }
    SplitJoinEmpty(rest, '@');
  }

  /**
   * `from_string`: None and "" give empty data (both fields None); any
   * other text gives the text before its first "@" as the pipeline-run id
   * and the rest, with every further "@" removed, as the timestamp.
   */
  function FromString(s: Option<string>): (d: SlotData)
    ensures s.None? || s.value == "" ==> d == SlotData(None, None) && d.IsEmpty()
    ensures s.Some? && s.value != "" ==>
      d.prid.Some? && d.timestamp.Some? && '@' !in d.prid.value && '@' !in d.timestamp.value
    ensures s.Some? && s.value != "" && '@' !in s.value ==>
      d.prid == Some(s.value) && d.timestamp == Some("")
    ensures s.Some? && '@' in s.value ==>
      && d.prid.Some? && d.timestamp.Some?
      && var k := |d.prid.value|;
      && k < |s.value| && s.value[..k] == d.prid.value && s.value[k] == '@'
      && d.timestamp.value == Without(s.value[k + 1..], '@')
  {
    if s.None? || s.value == "" then SlotData(None, None)
    else
      var values := Split(s.value, "@");
      SplitAtSign(s.value);
      SlotData(Some(values[0]), Some(Join(values[1..], "")))
  }

  /** Data whose two fields have no "@" and are not both "" survives `to_string` then `from_string`. */
  lemma {:induction false} RoundTrip(prid: string, timestamp: string)
    requires '@' !in prid && '@' !in timestamp
    requires prid != "" || timestamp != ""
    ensures FromString(Some(SlotData(Some(prid), Some(timestamp)).ToString())) == SlotData(Some(prid), Some(timestamp))
  {
    var s := prid + "@" + timestamp;
    assert SlotData(Some(prid), Some(timestamp)).ToString() == s;
    assert s[|prid|] == '@';
    var d := FromString(Some(s));
    var k := |d.prid.value|;
    assert k == |prid|;
    assert s[..k] == prid;
    assert s[k + 1..] == timestamp;
    WithoutAbsent(timestamp, '@');
  }

  /**
   * Decoding is a normal form: the data read from any text is either empty
   * (and encodes as "") or encodes to a text that decodes to the same data.
   */
  lemma {:induction false} DecodeEncodeDecode(s: Option<string>)
    ensures FromString(s).IsEmpty() ==> FromString(s).ToString() == ""
    ensures !FromString(s).IsEmpty() ==> FromString(Some(FromString(s).ToString())) == FromString(s)
  {
    var d := FromString(s);
    if !d.IsEmpty() {
      RoundTrip(d.prid.value, d.timestamp.value);
    }
  }

  /** A slot whose file holds `text` is free. */
  predicate IsFreeText(text: string)
  {
    FromString(Some(text)).IsEmpty()
  }

  /** The pipeline-run id read from a slot file holding `text` is `prid`. */
  predicate LockedByText(text: string, prid: string)
  {
    FromString(Some(text)).prid == Some(prid)
  }

  /** The data read from a slot file holding `text` is valid (`HostSlot.is_valid`). */
  predicate ValidText(text: string, isIso: string -> bool)
  {
    FromString(Some(text)).IsValid(isIso)
  }

  /** The text `lock` writes for pipeline run `prid` at time `now`. */
  function LockEntry(prid: string, now: string): string
  {
    SlotData(Some(prid), Some(now)).ToString()
  }

  /** A slot file is free exactly when it holds nothing but "@" characters (in particular, when it is empty). */
  lemma {:induction false} FreeTextIsOnlyAtSigns(text: string)
    ensures IsFreeText(text) <==> forall i :: 0 <= i < |text| ==> text[i] == '@'
  {
    if text != "" {
      var d := FromString(Some(text));
      if '@' in text {
        var k := |d.prid.value|;
        WithoutEmpty(text[k + 1..], '@');
        if IsFreeText(text) {
          assert k == 0;
          forall i | 0 <= i < |text| ensures text[i] == '@' {
            if i > 0 { assert text[i] == text[k + 1..][i - 1]; }
          }
        }
      } else {
        assert text[0] != '@';
      }
    }
  }

  /** Free content is always valid, so on content that does not change between reads `lock` never finds a free slot invalid. */
  lemma {:induction false} FreeTextIsValid(text: string, isIso: string -> bool)
    requires IsFreeText(text)
    ensures ValidText(text, isIso)
  {
  }

  /**
   * What `lock` writes for a pipeline-run id without "@" and a non-empty
   * timestamp without "@": occupied, held by that run, and valid exactly
   * when the timestamp is an ISO datetime.
   */
  lemma {:induction false} LockEntryProperties(prid: string, now: string, isIso: string -> bool)
    requires '@' !in prid && '@' !in now && now != ""
    ensures !IsFreeText(LockEntry(prid, now))
    ensures LockedByText(LockEntry(prid, now), prid)
    ensures ValidText(LockEntry(prid, now), isIso) <==> isIso(now)
  {
    RoundTrip(prid, now);
  }
}
