# harbours: descriptor and configuration loading, modelled in Dafny

`harbours.py` cross-compiles third-party POSIX packages ("harbours") for
HelenOS. Most of it starts external programs. This project models the text
processing inside it:

- **Config loader** (`load_config`). Each line of `helenos/config.rc` of the
  form `NAME="VALUE"` becomes a map entry. Other lines are skipped, and a
  later line for the same name overwrites an earlier one.
- **Descriptor splitter** (`load_harbour`). Each line of `HARBOUR.yml` goes
  either to the YAML front matter or to the shell script. A `---` line
  switches into YAML and a closing fence line switches back out.
- **Descriptor normalisation** (`load_harbour`). The harbour name is checked,
  a missing version becomes empty, and the `sources` list is filtered and
  expanded into `{url, dest}` pairs.
- **Facade naming** (`install_facade_binaries`). Each of ten tools gets the
  name `<arch>-helenos-<tool>`.

Files are given as sequences of lines, each with its newline, as Python's
`for line in f` yields them. `yaml.load` is a parameter, `parse`, that maps
the YAML text to a `Loader.Record` with optional `name`, `version` and
`sources`. The `install` calls are returned as `Facade.Install` values
instead of being run.

Modules: `Wrappers` (Option, Result), `Strings` (`str.replace`,
`os.path.basename`, line concatenation), `Config`, `Descriptor`, `Loader`,
`Facade`.

Two details of the code decide the behaviour at the edges:

- The value of a config line is what stands between `="` and a closing
  quote. The pattern is anchored with `$`, so the closing quote must be the
  last character of the line, or stand just before one final newline. The
  value may not contain a newline.
- A `version` that YAML reads as something other than a string (for example
  `version: 1.0`, a float) is kept as it is. The first string source entry
  then makes `str.replace` raise `TypeError`. The model returns
  `Err(VersionNotText)` for that case.

## Model

| member | source | states |
|---|---|---|
| Config.MatchLineIsPattern | harbours.py:60-67 | the line matcher returns (NAME, VALUE) exactly when the line is NAME="VALUE" with an optional final newline, NAME of the form `[a-zA-Z_][a-zA-Z0-9_]*` and no newline in VALUE (both directions) |
| Config.NameLength | harbours.py:60 | the name part is the longest prefix of name characters: every character before it is a name character and the next one is not |
| Config.LoadConfig | harbours.py:59-69 | the loop over the lines builds exactly the map of the line-by-line specification `ConfigOf` |
| Config.ConfigExtend | harbours.py:64-68 | a line that does not match leaves the map unchanged; a matching line sets its name to its value, overwriting any earlier value |
| Config.ConfigLastWins | harbours.py:62-69 | a key is in the map exactly when some line assigns it, and its value is the one assigned by the last such line |
| Descriptor.SplitDescriptor | harbours.py:103-119 | the loop produces the YAML text and the script text as the concatenation of the lines the splitter assigns to each |
| Descriptor.SplitIsMerge | harbours.py:109-119 | the non-marker lines of the descriptor are an interleaving of the YAML lines and the script lines: each lands on exactly one side, and each side keeps the file's order |
| Descriptor.MergeCounts | harbours.py:116-119 | in that interleaving, every line occurs as often as in the two sides together, and the line counts add up |
| Descriptor.SplitDropsMarkers | harbours.py:110-115 | no `---` line and no fence line ends up in either text |
| Descriptor.ModeIsLastMarker | harbours.py:108-115 | the splitter is in YAML mode exactly when a `---` line has been read and no fence line since |
| Descriptor.RedundantMarker | harbours.py:110-115 | a `---` read while already in YAML, or a fence read outside it, can be deleted without changing the result |
| Descriptor.LeadingLinesToScript | harbours.py:108-119 | the lines before the first `---` (fences among them dropped) are the beginning of the script text, whatever follows |
| Descriptor.Layout | harbours.py:104-119 | for script lines, `---`, YAML lines, fence, script lines, the YAML text is the middle block and the script is the first and last blocks joined |
| Strings.ReplaceAllAbsent | harbours.py:133 | `str.replace` leaves a text without the pattern unchanged |
| Strings.ReplaceAllAround | harbours.py:133 | with a pattern whose occurrences cannot overlap, `str.replace` keeps the text before the first occurrence, puts the replacement in its place and goes on after it |
| Strings.Basename | harbours.py:136 | `os.path.basename` is the suffix after the last `/`: it has no `/`, it is the whole path when there is no `/`, and it is empty when the path ends in `/` |
| Loader.ExpandVersionTemplate | harbours.py:133-137 | a source `x${version}y` with no `$` in `x` or `y` expands to url `x` + version + `y` |
| Loader.ExpandNameVersionTemplate | harbours.py:133-137 | a source `x${name}y${version}z` with no `$` in the pieces or the name expands to url `x` + name + `y` + version + `z` |
| Loader.ExpandNameFirst | harbours.py:133-134 | `${name}` is replaced before `${version}`: a name `x${version}y` used as the source `${name}` gives url `x` + version + `y` |
| Loader.ExpandArchiveExample | harbours.py:133-137 | `archive-${version}.tar.gz` at version `1.2` gives url and dest `archive-1.2.tar.gz`, whatever the harbour name |
| Loader.NormalisedKeepsUrls | harbours.py:129-141 | the normalised list is the string entries, in order, each expanded (non-string entries are dropped); it is never longer than the input |
| Loader.ExpandAll | harbours.py:131-140 | expanding a list of urls gives one source per url, the i-th being the expansion of the i-th url |
| Loader.NormaliseSources | harbours.py:129-141 | the loop fails with `TypeError` exactly when the version is not a string and a string entry exists; otherwise it returns the normalised list, which is empty for a non-string version |
| Loader.Load | harbours.py:121-145 | loading succeeds exactly when `name` equals the requested name and no string source meets a non-string version; a missing name is `KeyError`, another name is the assertion; the result has the requested name and the script, version `''` when absent, and `[]` sources when absent; with the right name, the only error left is the non-string version |
| Loader.LoadedSources | harbours.py:129-143 | the loaded sources are the string entries expanded with the harbour's name and version, in order, each `dest` the basename of its `url`, no more of them than entries |
| Loader.LoadHarbour | harbours.py:103-145 | loading the lines of a descriptor splits them, parses the YAML text and gives the result of `Load` on the parsed record and the script text |
| Facade.FacadeInstalls | harbours.py:86-100 | installation fails exactly when `HELENOS_ARCH` is not configured; otherwise it installs the ten tools in the listed order, each under `<arch>-helenos-<tool>` |
| Facade.FacadeNamesDistinct | harbours.py:90-94 | the ten facade names are pairwise different |

## Left out

- `run_command` and everything it runs: `make export-posix` in `import_libposix`, `install` in `install_facade_binaries`, `wget` in `fetch_sources`. These are external processes and their exit codes. `FacadeInstalls` returns the installs it would run.
- `format_command`: a wrapper over `shlex.quote`, whose quoting rules are library code.
- Opening and reading `helenos/config.rc` and `HARBOUR.yml`, `SELF_HOME`, `os.makedirs`, and the `facade/<tool>` template paths. Inputs are sequences of lines, and a template is named by its tool.
- Python's newline translation when reading text files. Lines arrive already decoded.
- `yaml.load`: a foreign parser, passed in as a function. Cases where the YAML document is not a mapping are not modelled. An empty front matter, for example, gives `None`, and `info['script'] = ...` then raises.
- A `sources` value that is not a list is not modelled. A string would be iterated character by character, a mapping by its keys, and `null` would raise.
- Keys of the front matter other than `name`, `version` and `sources`, which `load_harbour` passes through untouched.
- `Strings.ReplaceAll` requires a non-empty pattern. Python's `replace` with an empty pattern behaves differently, but the loader only ever uses `${name}` and `${version}`.
- Argument parsing, logging setup and the top-level dispatch: CLI glue.
- Environment export text, build-script generation and a `build` subcommand: `harbours.py` has none of them (its subcommands are `init` and `fetch`), so there is nothing of them to model.
