/** Facade binary naming in `install_facade_binaries`: with the target
    architecture taken from the configuration, each tool of a fixed list is
    installed under the name `<arch>-helenos-<tool>`. */
module Facade {
  import opened Wrappers
  import Config

  const ArchKey := "HELENOS_ARCH"
  const Infix := "-helenos-"
  const Tools: seq<string> := ["ar", "as", "cc", "cpp", "cxx", "nm", "objcopy", "objdump", "ranlib", "strip"]

  /** The installed name of the facade for `tool`; the architecture, the
      infix and the tool can be read back from it. */
  function FacadeName(arch: string, tool: string): (name: string)
    ensures |name| == |arch| + |Infix| + |tool|
    ensures name[..|arch|] == arch
    ensures name[|arch|..|arch| + |Infix|] == Infix
    ensures name[|arch| + |Infix|..] == tool
  {
    arch + Infix + tool
  }

  /** One `install` step: the facade template for `tool` is copied to `target`. */
  datatype Install = Install(tool: string, target: string)

  /** The assertion on `HELENOS_ARCH` failing. */
  datatype FacadeError = MissingArch

  /** The installs `install_facade_binaries` performs, in order, for the
      configuration file given as its lines. */
  method FacadeInstalls(configLines: seq<string>) returns (r: Result<seq<Install>, FacadeError>)
    ensures r.Ok? <==> ArchKey in Config.ConfigOf(configLines)
    ensures r.Ok? ==>
      && |r.value| == |Tools|
      && forall i | 0 <= i < |Tools| ::
           r.value[i] == Install(Tools[i], FacadeName(Config.ConfigOf(configLines)[ArchKey], Tools[i]))
  {
    var cfg := Config.LoadConfig(configLines);
    if ArchKey !in cfg {
      return Err(MissingArch);
    }
    var arch := cfg[ArchKey];
    var installs: seq<Install> := [];
    for i := 0 to |Tools|
      invariant |installs| == i
      invariant forall k | 0 <= k < i :: installs[k] == Install(Tools[k], FacadeName(arch, Tools[k]))
    {
      installs := installs + [Install(Tools[i], FacadeName(arch, Tools[i]))];
    }
    r := Ok(installs);
  }

  /** The ten facade names are pairwise different. */
  lemma FacadeNamesDistinct(arch: string)
    ensures forall i, j | 0 <= i < j < |Tools| :: FacadeName(arch, Tools[i]) != FacadeName(arch, Tools[j])
  {
  }
}
