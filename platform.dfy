/**
 * The capability probe: the host's OS family, the MIME type of its native
 * executables and its CPU architecture, computed once per process and kept
 * in a package-level variable. `runtime.GOOS` and `runtime.GOARCH` are
 * constants of the process, so they are constants of the probe object here.
 */
module Platform {
  import opened Wrappers

  /** Go's `type OS int`: Darwin and Linux are its two named values; GetOS also yields -1. */
  type OS = int

  const Darwin: OS := 0
  const Linux: OS := 1
  const UnknownOS: OS := -1

  const DarwinExecutableMime := "application/x-mach-binary"
  const LinuxExecutableMime := "application/x-executable"

  datatype Capabilities = Capabilities(os: OS, executableMime: string, arch: string)

  /** The GOOS values the probe supports. */
  predicate Supported(goos: string)
  {
    goos == "darwin" || goos == "linux"
  }

  /** GetOS: the OS family named by a GOOS value. */
  function GetOS(goos: string): (r: OS)
    ensures r == Darwin <==> goos == "darwin"
    ensures r == Linux <==> goos == "linux"
    ensures r != Darwin && r != Linux ==> r == UnknownOS
    ensures r == UnknownOS <==> !Supported(goos)
  {
    if goos == "darwin" then Darwin
    else if goos == "linux" then Linux
    else UnknownOS
  }

  /** The value GetCapabilities computes on its first call. */
  function ProbedCapabilities(goos: string, goarch: string): (c: Capabilities)
    requires Supported(goos)
    ensures c.os == GetOS(goos) && c.os != UnknownOS
    ensures c.arch == goarch
    ensures c.executableMime == if c.os == Darwin then DarwinExecutableMime else LinuxExecutableMime
  {
    var c := if goos == "darwin" then Capabilities(Darwin, DarwinExecutableMime, "")
             else Capabilities(Linux, LinuxExecutableMime, "");
    c.(arch := goarch)
  }

  /** The package-level memo `current` together with the runtime values it is computed from. */
  class Probe {
    const goos: string
    const goarch: string
    var current: Option<Capabilities>

    /** Whatever is memoized is what the runtime values give. */
    ghost predicate Valid()
      reads this
    {
      current.Some? ==> Supported(goos) && current.value == ProbedCapabilities(goos, goarch)
    }

    /** A fresh process: nothing memoized yet. */
    constructor (goos: string, goarch: string)
      ensures Valid()
      ensures this.goos == goos && this.goarch == goarch && current == None
    {
      this.goos := goos;
      this.goarch := goarch;
      current := None;
    }

    /**
     * GetCapabilities. On an unsupported OS the first call dereferences a nil
     * pointer, so the caller must be on darwin or linux unless a value is
     * already memoized; the result is therefore never nil.
     */
    method GetCapabilities() returns (c: Capabilities)
      requires Valid()
      requires current.Some? || Supported(goos)
      modifies this
      ensures Valid()
      ensures Supported(goos) && c == ProbedCapabilities(goos, goarch)
      ensures current == Some(c)
      ensures old(current).Some? ==> c == old(current).value
    {
      if current.Some? {
        return current.value;
      }
      var probed := ProbedCapabilities(goos, goarch);
      current := Some(probed);
      c := probed;
    }
  }

  /** Every call after the first returns the memoized value unchanged. */
  method RepeatedProbe(p: Probe) returns (first: Capabilities, second: Capabilities)
    requires p.Valid() && Supported(p.goos)
    modifies p
    ensures first == second
    ensures first.arch == p.goarch && first.os == GetOS(p.goos)
  {
    first := p.GetCapabilities();
    second := p.GetCapabilities();
  }
}
