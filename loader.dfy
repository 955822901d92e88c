/** The rest of `load_harbour`: the YAML text is parsed into a record, its
    `name` must be the requested harbour name, a missing `version` becomes
    the empty string and every string entry of `sources` becomes a
    `{url, dest}` pair after `${name}` and `${version}` substitution. */
module Loader {
  import opened Wrappers
  import opened Strings
  import Descriptor

  /** A YAML scalar as far as the loader cares: a string or anything else. */
  datatype Scalar = Text(s: string) | NonText

  /** One entry of the `sources` list: a plain string or any other YAML value. */
  datatype Entry = Url(url: string) | Other

  /** The parsed front matter; each key may be absent. */
  datatype Record = Record(name: Option<Scalar>, version: Option<Scalar>, sources: Option<seq<Entry>>)

  datatype Source = Source(url: string, dest: string)

  datatype Harbour = Harbour(name: string, version: Scalar, script: string, sources: seq<Source>)

  /** `info['name']` raising `KeyError`, the name assertion failing, and
      `str.replace` raising `TypeError` on a version that is not a string. */
  datatype LoadError = MissingName | NameMismatch | VersionNotText

  const NamePlaceholder := "${name}"
  const VersionPlaceholder := "${version}"

  /** A string source entry after substitution: `${name}` first, then `${version}`. */
  function Expand(name: string, version: string, entry: string): Source
  {
    var url := ReplaceAll(ReplaceAll(entry, NamePlaceholder, name), VersionPlaceholder, version);
    Source(url, Basename(url))
  }

  /** The normalised `sources` list, built as the loop builds it. */
  function Normalised(name: string, version: string, entries: seq<Entry>): seq<Source>
  {
    if entries == [] then []
    else
      var done := Normalised(name, version, entries[..|entries| - 1]);
      var e := entries[|entries| - 1];
      if e.Url? then done + [Expand(name, version, e.url)] else done
  }

  /** The string entries of `entries`, in order. */
  function Urls(entries: seq<Entry>): seq<string>
  {
    if entries == [] then [] else UrlOf(entries[0]) + Urls(entries[1..])
  }

  function UrlOf(e: Entry): seq<string>
  {
    if e.Url? then [e.url] else []
  }

  predicate HasUrl(entries: seq<Entry>)
  {
    exists k | 0 <= k < |entries| :: entries[k].Url?
  }

  lemma {:induction false} UrlsSnoc(entries: seq<Entry>, e: Entry)
    ensures Urls(entries + [e]) == Urls(entries) + UrlOf(e)
    decreases |entries|
  {
    if entries == [] {
      assert [e][1..] == [];
      assert Urls([e]) == UrlOf(e) + Urls([]);
    } else {
      var rest := entries[1..];
      assert (entries + [e])[0] == entries[0];
      assert (entries + [e])[1..] == rest + [e];
      UrlsSnoc(rest, e);
      calc {
        Urls(entries + [e]);
        UrlOf(entries[0]) + Urls(rest + [e]);
        UrlOf(entries[0]) + (Urls(rest) + UrlOf(e));
        (UrlOf(entries[0]) + Urls(rest)) + UrlOf(e);
        Urls(entries) + UrlOf(e);
      }
    }
  }

  /** Every url of `urls` expanded, in order. */
  function ExpandAll(name: string, version: string, urls: seq<string>): (r: seq<Source>)
    ensures |r| == |urls|
    ensures forall i | 0 <= i < |urls| :: r[i] == Expand(name, version, urls[i])
  {
    if urls == [] then []
    else ExpandAll(name, version, urls[..|urls| - 1]) + [Expand(name, version, urls[|urls| - 1])]
  }

  lemma {:induction false} UrlsShorter(entries: seq<Entry>)
    ensures |Urls(entries)| <= |entries|
  {
    if entries != [] {
      UrlsShorter(entries[1..]);
    }
  }

  /** Normalisation keeps exactly the string entries, in their order, and
      expands each one; every other entry is dropped. */
  lemma {:induction false} NormalisedKeepsUrls(name: string, version: string, entries: seq<Entry>)
    ensures Normalised(name, version, entries) == ExpandAll(name, version, Urls(entries))
    ensures |Normalised(name, version, entries)| <= |entries|
  {
    UrlsShorter(entries);
    if entries != [] {
      var prefix, e := entries[..|entries| - 1], entries[|entries| - 1];
      assert entries == prefix + [e];
      NormalisedKeepsUrls(name, version, prefix);
      UrlsSnoc(prefix, e);
      var urls := Urls(prefix);
      if e.Url? {
        var allUrls := urls + [e.url];
        assert Urls(entries) == allUrls;
        assert allUrls[..|allUrls| - 1] == urls;
      } else {
        assert urls + [] == urls;
        assert Urls(entries) == urls;
      }
    }
  }

  /** Without string entries there is nothing to substitute into. */
  lemma {:induction false} NormalisedWithoutUrls(name: string, version: string, version': string, entries: seq<Entry>)
    requires !HasUrl(entries)
    ensures Normalised(name, version, entries) == [] == Normalised(name, version', entries)
  {
    if entries != [] {
      assert !HasUrl(entries[..|entries| - 1]) by {
        assert forall k | 0 <= k < |entries| - 1 :: entries[..|entries| - 1][k] == entries[k];
      }
      NormalisedWithoutUrls(name, version, version', entries[..|entries| - 1]);
      assert entries[|entries| - 1].Other?;
    }
  }

  /** The source loop of `load_harbour`: it stops with `TypeError` at the first
      string entry when the version is not a string. */
  method NormaliseSources(name: string, version: Scalar, entries: seq<Entry>) returns (r: Result<seq<Source>, LoadError>)
    ensures r.Err? <==> version.NonText? && HasUrl(entries)
    ensures r.Err? ==> r.error == VersionNotText
    ensures r.Ok? ==> r.value == Normalised(name, VersionText(version), entries)
    ensures r.Ok? && version.NonText? ==> r.value == []
  {
    var sources: seq<Source> := [];
    for i := 0 to |entries|
      invariant version.NonText? ==> !HasUrl(entries[..i])
      invariant sources == Normalised(name, VersionText(version), entries[..i])
    {
      assert entries[..i + 1][..i] == entries[..i];
      match entries[i] {
        case Other =>
          assert version.NonText? ==> !HasUrl(entries[..i + 1]);
          continue;
        case Url(s) =>
          if version.NonText? {
            assert entries[i].Url?;
            return Err(VersionNotText);
          }
          sources := sources + [Expand(name, version.s, s)];
      }
    }
    assert entries[..|entries|] == entries;
    if version.NonText? {
      NormalisedWithoutUrls(name, "", "", entries);
    }
    r := Ok(sources);
  }

  /** The text substituted for `${version}`: a non-string version is never
      substituted, since `str.replace` raises first. */
  function VersionText(version: Scalar): string
  {
    if version.Text? then version.s else ""
  }

  /** The outcome of `load_harbour` for the parsed front matter `info` and the
      script text. */
  function Load(harbourName: string, info: Record, script: string): (r: Result<Harbour, LoadError>)
    ensures r.Ok? <==> info.name == Some(Text(harbourName)) && !(VersionOf(info).NonText? && HasUrl(EntriesOf(info)))
    ensures info.name.None? ==> r == Err(MissingName)
    ensures info.name.Some? && info.name != Some(Text(harbourName)) ==> r == Err(NameMismatch)
    ensures info.name == Some(Text(harbourName)) && r.Err? ==> r.error == VersionNotText
    ensures r.Ok? ==> r.value.name == harbourName && r.value.script == script
    ensures r.Ok? ==> r.value.version == (if info.version.Some? then info.version.value else Text(""))
    ensures r.Ok? && info.sources.None? ==> r.value.sources == []
  {
    if info.name.None? then Err(MissingName)
    else if info.name.value != Text(harbourName) then Err(NameMismatch)
    else
      var version := VersionOf(info);
      var entries := EntriesOf(info);
      if version.NonText? && HasUrl(entries) then Err(VersionNotText)
      else Ok(Harbour(harbourName, version, script, Normalised(harbourName, VersionText(version), entries)))
  }

  /** `info['version']`, defaulting to the empty string. */
  function VersionOf(info: Record): Scalar
  {
    if info.version.Some? then info.version.value else Text("")
  }

  /** `info['sources']`, defaulting to the empty list. */
  function EntriesOf(info: Record): seq<Entry>
  {
    if info.sources.Some? then info.sources.value else []
  }

  /** The loaded `sources` are the string entries of the record, in order,
      each expanded with the harbour's name and version; the list is never
      longer than the record's. */
  lemma LoadedSources(harbourName: string, info: Record, script: string)
    requires Load(harbourName, info, script).Ok?
    ensures var h := Load(harbourName, info, script).value;
      && |h.sources| == |Urls(EntriesOf(info))| <= |EntriesOf(info)|
      && h.sources == ExpandAll(harbourName, VersionText(h.version), Urls(EntriesOf(info)))
      && forall i | 0 <= i < |h.sources| ::
           && h.sources[i] == Expand(harbourName, VersionText(h.version), Urls(EntriesOf(info))[i])
           && h.sources[i].dest == Basename(h.sources[i].url)
  {
    NormalisedKeepsUrls(harbourName, VersionText(VersionOf(info)), EntriesOf(info));
  }

  /** `load_harbour` on the lines of `HARBOUR.yml`; `parse` stands for `yaml.load`. */
  method LoadHarbour(harbourName: string, lines: seq<string>, parse: string -> Record) returns (r: Result<Harbour, LoadError>)
    ensures r == Load(harbourName,
                      parse(Concat(Descriptor.SplitLines(lines).yaml)),
                      Concat(Descriptor.SplitLines(lines).script))
  {
    var yamlText, script := Descriptor.SplitDescriptor(lines);
    var info := parse(yamlText);
    if info.name.None? {
      return Err(MissingName);
    }
    if info.name.value != Text(harbourName) {
      return Err(NameMismatch);
    }
    var version := if info.version.Some? then info.version.value else Text("");
    var sources: seq<Source> := [];
    if info.sources.Some? {
      var normalised := NormaliseSources(harbourName, version, info.sources.value);
      if normalised.Err? {
        return Err(normalised.error);
      }
      sources := normalised.value;
    }
    r := Ok(Harbour(harbourName, version, script, sources));
  }

  /** Only a `$` can start a placeholder, so `y${version}z` with no `$` in `y`
      or `z` holds no `${name}`. */
  lemma NoNamePlaceholder(y: string, z: string)
    requires '$' !in y && '$' !in z
    ensures !Occurs(y + VersionPlaceholder + z, NamePlaceholder)
  {
    var s := y + VersionPlaceholder + z;
    forall i ensures !OccursAt(s, NamePlaceholder, i) {
      if 0 <= i && i + |NamePlaceholder| <= |s| {
        assert s[i..i + |NamePlaceholder|][0] == s[i] && s[i..i + |NamePlaceholder|][2] == s[i + 2];
        if i < |y| {
          assert s[i] == y[i];
        } else if i == |y| {
          assert s[i + 2] == 'v';
        } else if i < |y| + |VersionPlaceholder| {
          assert s[i] == VersionPlaceholder[i - |y|];
        } else {
          assert s[i] == z[i - |y| - |VersionPlaceholder|];
        }
      }
    }
  }

  /** For a source written as `x${version}y` with no `$` in `x` or `y`, the
      url is `x`, the version and `y`. */
  lemma ExpandVersionTemplate(name: string, version: string, x: string, y: string)
    requires '$' !in x && '$' !in y
    ensures Expand(name, version, x + VersionPlaceholder + y).url == x + version + y
  {
    var s := x + VersionPlaceholder + y;
    NoNamePlaceholder(x, y);
    ReplaceAllAbsent(s, NamePlaceholder, name);
    PlaceholdersBorderFree();
    NoOccurrenceWithout(x, VersionPlaceholder);
    NoOccurrenceWithout(y, VersionPlaceholder);
    ReplaceAllAround(x, VersionPlaceholder, y, version);
    ReplaceAllAbsent(y, VersionPlaceholder, version);
  }

  /** For a source written as `x${name}y${version}z`, with no `$` in the
      pieces or in the name, the url is `x`, the name, `y`, the version and `z`. */
  lemma ExpandNameVersionTemplate(name: string, version: string, x: string, y: string, z: string)
    requires '$' !in x && '$' !in y && '$' !in z && '$' !in name
    ensures Expand(name, version, x + NamePlaceholder + y + VersionPlaceholder + z).url
            == x + name + y + version + z
  {
    var rest := y + VersionPlaceholder + z;
    assert x + NamePlaceholder + y + VersionPlaceholder + z == x + NamePlaceholder + rest;
    PlaceholdersBorderFree();
    NoOccurrenceWithout(x, NamePlaceholder);
    ReplaceAllAround(x, NamePlaceholder, rest, name);
    NoNamePlaceholder(y, z);
    ReplaceAllAbsent(rest, NamePlaceholder, name);
    var head := x + name + y;
    assert x + name + rest == head + VersionPlaceholder + z;
    assert '$' !in head;
    NoOccurrenceWithout(head, VersionPlaceholder);
    ReplaceAllAround(head, VersionPlaceholder, z, version);
    NoOccurrenceWithout(z, VersionPlaceholder);
    ReplaceAllAbsent(z, VersionPlaceholder, version);
  }

  /** `${name}` is replaced before `${version}`: a `${version}` that the name
      brings into the url is replaced as well. */
  lemma ExpandNameFirst(x: string, y: string, version: string)
    requires '$' !in x && '$' !in y
    ensures Expand(x + VersionPlaceholder + y, version, NamePlaceholder).url == x + version + y
  {
    var name := x + VersionPlaceholder + y;
    PlaceholdersBorderFree();
    NoOccurrenceWithout([], NamePlaceholder);
    assert [] + NamePlaceholder + [] == NamePlaceholder;
    ReplaceAllAround([], NamePlaceholder, [], name);
    assert [] + name + [] == name;
    NoOccurrenceWithout(x, VersionPlaceholder);
    NoOccurrenceWithout(y, VersionPlaceholder);
    ReplaceAllAround(x, VersionPlaceholder, y, version);
    ReplaceAllAbsent(y, VersionPlaceholder, version);
  }

  lemma PlaceholdersBorderFree()
    ensures BorderFree(NamePlaceholder) && BorderFree(VersionPlaceholder)
  {
    forall k | 0 < k < |NamePlaceholder| ensures NamePlaceholder[k..] != NamePlaceholder[..|NamePlaceholder| - k] {
      assert NamePlaceholder[k..][0] == NamePlaceholder[k] != '$';
    }
    forall k | 0 < k < |VersionPlaceholder| ensures VersionPlaceholder[k..] != VersionPlaceholder[..|VersionPlaceholder| - k] {
      assert VersionPlaceholder[k..][0] == VersionPlaceholder[k] != '$';
    }
  }

  /** The archive example: `archive-${version}.tar.gz` at version 1.2, for
      any harbour name. */
  lemma ExpandArchiveExample(name: string, entry: string)
    requires entry == "archive-${version}.tar.gz"
    ensures Expand(name, "1.2", entry) == Source("archive-1.2.tar.gz", "archive-1.2.tar.gz")
  {
    var x, y := "archive-", ".tar.gz";
    assert entry == x + VersionPlaceholder + y;
    ArchiveUrl(name, x, y);
    ArchiveBasename("archive-1.2.tar.gz");
  }

  lemma ArchiveBasename(url: string)
    requires url == "archive-1.2.tar.gz"
    ensures Basename(url) == url
  {
    assert '/' !in url;
  }

  lemma ArchiveUrl(name: string, x: string, y: string)
    requires x == "archive-" && y == ".tar.gz"
    ensures Expand(name, "1.2", x + VersionPlaceholder + y).url == "archive-1.2.tar.gz"
  {
    assert '$' !in x && '$' !in y;
    ExpandVersionTemplate(name, "1.2", x, y);
  }
}
