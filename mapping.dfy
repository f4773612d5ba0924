/**
 * `createDisplayMapFromConfig`: the configuration's display section (display
 * index as text -> list of targets) becomes a list of `DisplayMap` records.
 * The Go map is taken as the sequence of its entries in whatever order the
 * iteration visits them; nothing here depends on that order beyond the order
 * of the result.
 */
module DisplayMapping {
  import opened Common
  import Decimal

  /** One display's target: a process name, an image path, or the slider's target for "auto". */
  datatype DisplayMap = DisplayMap(displayIdx: int, target: string, currentApp: bool)

  /** One entry of the configuration map: the index text and its target list. */
  type ConfigEntry = (string, seq<string>)

  /** The slider target that stands for "whatever application is in front". */
  const CurrentApp: string := "deej.current"

  /**
   * What the source indexes without checking: every target list, and the
   * slider mapping of every "auto" display, has a last element.
   */
  predicate Indexable(entry: ConfigEntry, sliderMap: int -> seq<string>)
  {
    |entry.1| > 0 && (Last(entry.1) == "auto" ==> |sliderMap(Decimal.Atoi(entry.0))| > 0)
  }

  /**
   * One pass of the loop body: the records for `entry` appended to `mapping`,
   * in the order of the source's three independent tests.
   */
  function AddEntry(mapping: seq<DisplayMap>, entry: ConfigEntry, sliderMap: int -> seq<string>): seq<DisplayMap>
    requires Indexable(entry, sliderMap)
  {
    var target := Last(entry.1);
    var idx := Decimal.Atoi(entry.0);
    var withExe := if Contains(target, ".exe") then mapping + [DisplayMap(idx, target, false)] else mapping;
    var withPng := if Contains(target, ".png") then withExe + [DisplayMap(idx, target, false)] else withExe;
    if target == "auto" then
      var mapped := Last(sliderMap(idx));
      withPng + [DisplayMap(idx, mapped, mapped == CurrentApp)]
    else
      withPng
  }

  /** The records one configuration entry contributes. */
  function EntriesFor(entry: ConfigEntry, sliderMap: int -> seq<string>): seq<DisplayMap>
    requires Indexable(entry, sliderMap)
  {
    AddEntry([], entry, sliderMap)
  }

  /** The whole mapping: the entries' records in iteration order. */
  function MappingOf(config: seq<ConfigEntry>, sliderMap: int -> seq<string>): seq<DisplayMap>
    requires forall i :: 0 <= i < |config| ==> Indexable(config[i], sliderMap)
  {
    if config == [] then []
    else AddEntry(MappingOf(config[..|config| - 1], sliderMap), Last(config), sliderMap)
  }

  /** The loop body appends exactly the entry's records. */
  lemma AddEntryAppends(mapping: seq<DisplayMap>, entry: ConfigEntry, sliderMap: int -> seq<string>)
    requires Indexable(entry, sliderMap)
    ensures AddEntry(mapping, entry, sliderMap) == mapping + EntriesFor(entry, sliderMap)
  {
    var target := Last(entry.1);
    var idx := Decimal.Atoi(entry.0);
    var e := DisplayMap(idx, target, false);
    assert mapping + [e] + [e] == mapping + ([e] + [e]);
    if target == "auto" {
      var last := DisplayMap(idx, Last(sliderMap(idx)), Last(sliderMap(idx)) == CurrentApp);
      assert mapping + [e] + [last] == mapping + ([e] + [last]);
      assert mapping + [e] + [e] + [last] == mapping + ([e] + [e] + [last]);
    }
  }

  /** The loop of `createDisplayMapFromConfig`, appending each entry's records. */
  method CreateDisplayMapFromConfig(config: seq<ConfigEntry>, sliderMap: int -> seq<string>)
    returns (mapping: seq<DisplayMap>)
    requires forall i :: 0 <= i < |config| ==> Indexable(config[i], sliderMap)
    ensures mapping == MappingOf(config, sliderMap)
  {
    mapping := [];
    var i := 0;
    while i < |config|
      invariant 0 <= i <= |config|
      invariant mapping == MappingOf(config[..i], sliderMap)
    {
      var displayIdx, targets := config[i].0, config[i].1;
      var target := targets[|targets| - 1];
      var idx := Decimal.Atoi(displayIdx);
      if Contains(target, ".exe") {
        mapping := mapping + [DisplayMap(idx, target, false)];
      }
      if Contains(target, ".png") {
        mapping := mapping + [DisplayMap(idx, target, false)];
      }
      if target == "auto" {
        var mappedTo := sliderMap(idx);
        var firstExe := mappedTo[|mappedTo| - 1];
        var isCurrent := firstExe == CurrentApp;
        mapping := mapping + [DisplayMap(idx, firstExe, isCurrent)];
      }
      assert config[..i + 1][..i] == config[..i];
      i := i + 1;
    }
    assert config[..i] == config;
  }

  /**
   * Only the last target of a list matters. It yields one record if it
   * contains ".exe", one if it contains ".png" (two if both), one if it is
   * exactly "auto", and nothing otherwise; every record carries the parsed
   * index, which is 0 when the key does not parse and an int64 bound when
   * its leading digits overflow.
   */
  lemma EntriesForCases(entry: ConfigEntry, sliderMap: int -> seq<string>)
    requires Indexable(entry, sliderMap)
    ensures var target := Last(entry.1);
            var r := EntriesFor(entry, sliderMap);
            && |r| == (if Contains(target, ".exe") then 1 else 0)
                      + (if Contains(target, ".png") then 1 else 0)
                      + (if target == "auto" then 1 else 0)
            && (forall e :: e in r ==> e.displayIdx == Decimal.Atoi(entry.0))
            && (Decimal.ParseInt(entry.0).None? && !Decimal.Overflows(entry.0) ==> forall e :: e in r ==> e.displayIdx == 0)
            && (Decimal.Overflows(entry.0) ==> forall e :: e in r ==> e.displayIdx == Decimal.Int64Min || e.displayIdx == Decimal.Int64Max)
            && (forall e :: e in r && target != "auto" ==> e.target == target && !e.currentApp)
  {
  }

  /** "auto" takes the slider's last target and tracks the foreground app exactly when that is "deej.current". */
  lemma AutoEntry(key: string, targets: seq<string>, sliderMap: int -> seq<string>)
    requires |targets| > 0 && Last(targets) == "auto"
    requires |sliderMap(Decimal.Atoi(key))| > 0
    ensures var mapped := Last(sliderMap(Decimal.Atoi(key)));
            EntriesFor((key, targets), sliderMap) == [DisplayMap(Decimal.Atoi(key), mapped, mapped == CurrentApp)]
  {
    NoExtension("auto");
  }

  /** A name in which no dot is followed by 'e' or 'p' contains neither ".exe" nor ".png". */
  lemma NoExtension(s: string)
    requires forall i :: 0 <= i < |s| - 1 && s[i] == '.' ==> s[i + 1] != 'e' && s[i + 1] != 'p'
    ensures !Contains(s, ".exe") && !Contains(s, ".png")
  {
    ContainsOccurs(s, ".exe");
    ContainsOccurs(s, ".png");
    forall i | 0 <= i <= |s|
      ensures !OccursAt(s, ".exe", i) && !OccursAt(s, ".png", i)
    {
      if i + 4 <= |s| {
        assert s[i..i + 4][0] == s[i];
        assert s[i..i + 4][1] == s[i + 1];
      }
    }
  }

  /** "deej.current" names neither an executable nor an image file. */
  lemma CurrentAppIsNoFile()
    ensures !Contains(CurrentApp, ".exe") && !Contains(CurrentApp, ".png")
  {
    NoExtension(CurrentApp);
  }

  /** Every record of an entry appears in the mapping. */
  lemma {:induction false} MappingHas(config: seq<ConfigEntry>, sliderMap: int -> seq<string>, i: nat, e: DisplayMap)
    requires forall i :: 0 <= i < |config| ==> Indexable(config[i], sliderMap)
    requires i < |config| && e in EntriesFor(config[i], sliderMap)
    ensures e in MappingOf(config, sliderMap)
  {
    var n := |config| - 1;
    if i < n {
      assert config[..n][i] == config[i];
      MappingHas(config[..n], sliderMap, i, e);
    }
  }

  /** Every record of the mapping comes from one of the entries. */
  lemma {:induction false} MappingFrom(config: seq<ConfigEntry>, sliderMap: int -> seq<string>, e: DisplayMap)
      returns (i: nat)
    requires forall i :: 0 <= i < |config| ==> Indexable(config[i], sliderMap)
    requires e in MappingOf(config, sliderMap)
    ensures i < |config| && e in EntriesFor(config[i], sliderMap)
  {
    var n := |config| - 1;
    if e in MappingOf(config[..n], sliderMap) {
      i := MappingFrom(config[..n], sliderMap, e);
      assert config[..n][i] == config[i];
    } else {
      i := n;
    }
  }

  /** Within one entry's records, tracking the foreground app goes with the target "deej.current". */
  lemma EntryCurrentApp(entry: ConfigEntry, sliderMap: int -> seq<string>)
    requires Indexable(entry, sliderMap)
    ensures forall e :: e in EntriesFor(entry, sliderMap) ==> (e.currentApp <==> e.target == CurrentApp)
  {
    var target := Last(entry.1);
    if target == "auto" {
      AutoEntry(entry.0, entry.1, sliderMap);
    } else {
      EntriesForCases(entry, sliderMap);
      if Contains(target, ".exe") || Contains(target, ".png") {
        CurrentAppIsNoFile();
        assert target != CurrentApp;
      }
    }
  }

  /** Throughout the mapping, a record tracks the foreground app exactly when its target is "deej.current". */
  lemma {:induction false} CurrentAppMeansSentinel(config: seq<ConfigEntry>, sliderMap: int -> seq<string>)
    requires forall i :: 0 <= i < |config| ==> Indexable(config[i], sliderMap)
    ensures forall e :: e in MappingOf(config, sliderMap) ==> (e.currentApp <==> e.target == CurrentApp)
  {
    if config != [] {
      var init := config[..|config| - 1];
      CurrentAppMeansSentinel(init, sliderMap);
      EntryCurrentApp(Last(config), sliderMap);
      AddEntryAppends(MappingOf(init, sliderMap), Last(config), sliderMap);
    }
  }
}
