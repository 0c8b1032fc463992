/** The Debian strategy of `image_bootstrap/distros/debian.py`: release and
    architecture checks, the kernel package, the debootstrap command line,
    the network configuration it writes, and the commands it runs in the
    chroot. */
module Debian {
  import opened Wrappers
  import opened Text
  import opened PosixPath
  import opened Host
  import Commands

  const DistroKey := "debian"
  const DistroNameShort := "Debian"
  const DistroNameLong := "Debian GNU/Linux"
  const DefaultRelease := "jessie"
  const DefaultMirrorUrl := "http://http.debian.net/debian"
  const AptCacherNgUrl := "http://localhost:3142/debian"

  /** `BOOTLOADER__NONE`, the bootloader approach that installs no bootloader.
      `image_bootstrap/engine.py`, which defines it, is not part of this
      model; the constant carries its conventional value. */
  const BootloaderNone := "none"

  /** `_ETC_NETWORK_INTERFACES_CONTENT`. */
  const InterfacesContent :=
    "# interfaces(5) file used by ifup(8) and ifdown(8)\n"
    + "auto lo\n"
    + "iface lo inet loopback\n"
    + "\n"
    + "allow-hotplug eth0\n"
    + "iface eth0 inet dhcp\n"

  const Grub2InstallCommand := "grub-install"
  const CloudInitDatasourceCfgPath := "/etc/cloud/cloud.cfg.d/90_dpkg.cfg"

  /** `check_release()`: the suite names `stable` and `testing` are refused,
      since the meaning of an image built from them would change over time. */
  function CheckRelease(release: string): (r: Result<(), string>)
    ensures r.Err? <==> release == "stable" || release == "testing"
    ensures r.Err? ==> StartsWith(r.error, "For Debian releases, please use names like \"jessie\" rather than \"")
  {
    if release == "stable" || release == "testing" then
      Err("For Debian releases, please use names like \"jessie\" rather than \"" + release + "\".")
    else Ok(())
  }

  /** `get_kernel_package_name(architecture)`. */
  function KernelPackageName(architecture: string): (r: string)
    ensures StartsWith(r, "linux-image-")
  {
    if architecture == "i386" then "linux-image-686-pae" else "linux-image-" + architecture
  }

  /** Only `i386` is renamed: the package name gives back the architecture,
      except that `i386` and `686-pae` share one package. */
  lemma KernelPackageNameInjective(a: string, b: string)
    requires KernelPackageName(a) == KernelPackageName(b)
    ensures a == b || (a == "i386" && b == "686-pae") || (a == "686-pae" && b == "i386")
  {
    var p := "linux-image-";
    if a != "i386" && b != "i386" {
      assert (p + a)[|p|..] == a && (p + b)[|p|..] == b;
    } else if a == "i386" && b != "i386" {
      assert "linux-image-686-pae" == p + "686-pae";
      assert (p + b)[|p|..] == b && (p + "686-pae")[|p|..] == "686-pae";
    } else if a != "i386" {
      assert "linux-image-686-pae" == p + "686-pae";
      assert (p + a)[|p|..] == a && (p + "686-pae")[|p|..] == "686-pae";
    }
  }

  /** `_ArchitectureMachineMismatch(architecture, machine)`. */
  datatype MachineMismatch = MachineMismatch(architecture: string, machine: string) {
    function Message(): string {
      "Bootstrapping architecture " + architecture + " on " + machine + " machines not supported"
    }
  }

  /** The machines that run `i386` code. */
  const I386Machines: seq<string> := ["i386", "i486", "i586", "i686", "x86_64"]

  /** `check_architecture(architecture)`, with the output of `uname -m`
      passed in rather than obtained by running it. */
  function CheckArchitecture(architecture: string, unameOutput: string): (r: Result<string, MachineMismatch>)
    ensures r.Ok? ==> r.value == architecture
    ensures r.Err? ==> r.error.architecture == architecture && r.error.machine == RStrip(unameOutput)
  {
    var hostMachine := RStrip(unameOutput);
    var trouble :=
      if architecture == "amd64" && hostMachine != "x86_64" then true
      else if architecture == "i386" then hostMachine !in I386Machines
      else false;
    if trouble then Err(MachineMismatch(architecture, hostMachine)) else Ok(architecture)
  }

  /** The check fails exactly for `amd64` off an `x86_64` host and for `i386`
      off the five machines that run it, naming the host machine with its
      trailing whitespace removed; otherwise it returns the architecture
      unchanged. Every other architecture passes on any host. */
  lemma CheckArchitectureMismatch(architecture: string, unameOutput: string)
    ensures var host := RStrip(unameOutput);
      CheckArchitecture(architecture, unameOutput).Err? <==>
        (architecture == "amd64" && host != "x86_64") || (architecture == "i386" && host !in I386Machines)
    ensures CheckArchitecture(architecture, unameOutput).Err? ==>
      CheckArchitecture(architecture, unameOutput).error == MachineMismatch(architecture, RStrip(unameOutput))
    ensures CheckArchitecture(architecture, unameOutput).Ok? ==>
      CheckArchitecture(architecture, unameOutput).value == architecture
  {
  }

  /** A newline after the machine name, as `uname` prints it, does not matter. */
  lemma CheckArchitectureIgnoresNewline(architecture: string, machine: string)
    requires machine == [] || !IsWhitespace(machine[|machine| - 1])
    ensures CheckArchitecture(architecture, machine + "\n") == CheckArchitecture(architecture, machine)
  {
    RStripNewline(machine);
  }

  lemma RStripNewline(machine: string)
    requires machine == [] || !IsWhitespace(machine[|machine| - 1])
    ensures RStrip(machine + "\n") == machine && RStrip(machine) == machine
  {
    var s := machine + "\n";
    assert s[..|s| - 1] == machine;
  }

  /** The packages debootstrap adds: initramfs-tools, the kernel, and GRUB
      unless no bootloader is wanted. */
  function ExtraPackages(architecture: string, bootloaderApproach: string): seq<string> {
    ["initramfs-tools", KernelPackageName(architecture)] + (if bootloaderApproach != BootloaderNone then ["grub-pc"] else [])
  }

  /** The debootstrap command line, run in a new mount namespace. */
  function DebootstrapArgv(debootstrap: string, options: seq<string>, release: string, mirrorUrl: string,
                           mountpoint: string, architecture: string, bootloaderApproach: string): seq<string> {
    [Commands.Unshare, "--mount", "--", debootstrap, "--arch", architecture,
     "--include=" + JoinWith(",", ExtraPackages(architecture, bootloaderApproach))]
    + options + [release, mountpoint, mirrorUrl]
  }

  /** GRUB is included exactly when a bootloader is wanted. */
  lemma ExtraPackagesIncludeGrub(architecture: string, bootloaderApproach: string)
    ensures var extras := ExtraPackages(architecture, bootloaderApproach);
      && extras[..2] == ["initramfs-tools", KernelPackageName(architecture)]
      && ("grub-pc" in extras <==> bootloaderApproach != BootloaderNone)
      && |extras| == if bootloaderApproach != BootloaderNone then 3 else 2
  {
    var extras := ExtraPackages(architecture, bootloaderApproach);
    assert "initramfs-tools" != "grub-pc";
    assert KernelPackageName(architecture) != "grub-pc" by {
      assert KernelPackageName(architecture)[..6] == "linux-";
    }
    assert bootloaderApproach == BootloaderNone ==> extras == ["initramfs-tools", KernelPackageName(architecture)];
  }

  /** The command line consists of: the namespace and debootstrap, the
      architecture, the include list (which splits back into the packages),
      the options in order, then release, target and mirror. */
  lemma DebootstrapArgvParts(debootstrap: string, options: seq<string>, release: string, mirrorUrl: string,
                             mountpoint: string, architecture: string, bootloaderApproach: string)
    requires ',' !in architecture
    ensures var argv := DebootstrapArgv(debootstrap, options, release, mirrorUrl, mountpoint, architecture, bootloaderApproach);
      var n := |options|;
      && |argv| == 10 + n
      && argv[..6] == [Commands.Unshare, "--mount", "--", debootstrap, "--arch", architecture]
      && StartsWith(argv[6], "--include=")
      && SplitOn(',', argv[6][10..]) == ExtraPackages(architecture, bootloaderApproach)
      && argv[7..7 + n] == options
      && argv[7 + n..] == [release, mountpoint, mirrorUrl]
  {
    var argv := DebootstrapArgv(debootstrap, options, release, mirrorUrl, mountpoint, architecture, bootloaderApproach);
    var extras := ExtraPackages(architecture, bootloaderApproach);
    var includeArg := "--include=" + JoinWith(",", extras);
    assert argv[6] == includeArg;
    assert includeArg[10..] == JoinWith(",", extras);
    assert ',' !in KernelPackageName(architecture) by {
      if architecture != "i386" {
        assert forall c :: c in "linux-image-" + architecture ==> c in "linux-image-" || c in architecture;
      }
    }
    assert forall k :: 0 <= k < |extras| ==> ',' !in extras[k];
    SplitJoin(',', extras);
  }

  /** `os.path.join(mountpoint, 'etc', 'network', 'interfaces')`. */
  function InterfacesFile(mountpoint: string): string {
    Join(Join(Join(mountpoint, "etc"), "network"), "interfaces")
  }

  /** The file written is `etc/network/interfaces` under the mount point, with
      a separator added unless the mount point is empty or already ends with one. */
  lemma InterfacesFilePath(mountpoint: string)
    ensures mountpoint == [] || mountpoint[|mountpoint| - 1] == '/' ==>
      InterfacesFile(mountpoint) == mountpoint + "etc" + "/" + "network" + "/" + "interfaces"
    ensures mountpoint != [] && mountpoint[|mountpoint| - 1] != '/' ==>
      InterfacesFile(mountpoint) == mountpoint + "/" + "etc" + "/" + "network" + "/" + "interfaces"
  {
    JoinNames(mountpoint, "etc", "network", "interfaces");
  }
  /** `chroot <mountpoint> apt-get install -y <packages>`. */
  function AptInstallArgv(mountpoint: string, packages: seq<string>): (argv: seq<string>)
    ensures |argv| == 5 + |packages| && argv[5..] == packages
    ensures argv[..5] == [Commands.Chroot, mountpoint, "apt-get", "install", "-y"]
  {
    [Commands.Chroot, mountpoint, "apt-get", "install", "-y"] + packages
  }

  /** The environment apt-get runs in: `DEBIAN_FRONTEND` is `noninteractive`
      unless the caller set it. */
  function WithFrontend(env: Env): (r: Env)
    ensures "DEBIAN_FRONTEND" in r
    ensures "DEBIAN_FRONTEND" in env ==> r == env
    ensures "DEBIAN_FRONTEND" !in env ==> r["DEBIAN_FRONTEND"] == "noninteractive"
    ensures forall k :: k != "DEBIAN_FRONTEND" ==> (k in r <==> k in env) && (k in env ==> r[k] == env[k])
  {
    if "DEBIAN_FRONTEND" in env then env else env["DEBIAN_FRONTEND" := "noninteractive"]
  }

  /** Setting the default twice is setting it once. */
  lemma WithFrontendIdempotent(env: Env)
    ensures WithFrontend(WithFrontend(env)) == WithFrontend(env)
  {
  }

  /** `DebianStrategy`: the release, mirror, debootstrap command and options it
      is configured with, the executor it runs commands through, and the files
      it writes. */
  class DebianStrategy {
    const executor: Executor
    const files: FileSystem
    const release: string
    const mirrorUrl: string
    const commandDebootstrap: string
    const debootstrapOptions: seq<string>

    constructor (executor: Executor, files: FileSystem, release: string, mirrorUrl: string,
                 commandDebootstrap: string, debootstrapOptions: seq<string>)
      ensures this.executor == executor && this.files == files && this.release == release
      ensures this.mirrorUrl == mirrorUrl && this.commandDebootstrap == commandDebootstrap
      ensures this.debootstrapOptions == debootstrapOptions
    {
      this.executor := executor;
      this.files := files;
      this.release := release;
      this.mirrorUrl := mirrorUrl;
      this.commandDebootstrap := commandDebootstrap;
      this.debootstrapOptions := debootstrapOptions;
    }

    /** `get_commands_to_check_for()`: four host commands and the configured debootstrap. */
    function CommandsToCheckFor(): (r: seq<string>)
      ensures |r| == 5 && r[4] == commandDebootstrap
      ensures r[..4] == [Commands.Chroot, Commands.Find, Commands.Uname, Commands.Unshare]
    {
      [Commands.Chroot, Commands.Find, Commands.Uname, Commands.Unshare, commandDebootstrap]
    }

    /** `run_directory_bootstrap(mountpoint, architecture, bootloader_approach)`. */
    method RunDirectoryBootstrap(mountpoint: string, architecture: string, bootloaderApproach: string) returns (ok: bool)
      modifies executor
      ensures var e := Exec(DebootstrapArgv(commandDebootstrap, debootstrapOptions, release, mirrorUrl,
                                            mountpoint, architecture, bootloaderApproach), None);
        executor.log == old(executor.log) + [e] && ok == !Fails(e, executor.failing)
    {
      var extraPackages := ["initramfs-tools", KernelPackageName(architecture)];
      if bootloaderApproach != BootloaderNone {
        extraPackages := extraPackages + ["grub-pc"];
      }
      assert extraPackages == ExtraPackages(architecture, bootloaderApproach);
      var cmd := [Commands.Unshare, "--mount", "--", commandDebootstrap, "--arch", architecture,
                  "--include=" + JoinWith(",", extraPackages)]
                 + debootstrapOptions + [release, mountpoint, mirrorUrl];
      ok := executor.CheckCall(cmd, None);
    }

    /** `create_network_configuration(mountpoint)`: the file is replaced by
        the constant content and the newline `print` adds. */
    method CreateNetworkConfiguration(mountpoint: string)
      modifies files
      ensures files.entries == old(files.entries)[InterfacesFile(mountpoint) := File(InterfacesContent + "\n")]
    {
      var filename := Join(Join(Join(mountpoint, "etc"), "network"), "interfaces");
      files.WriteFile(filename, InterfacesContent + "\n");
    }

    /** `ensure_chroot_has_grub2_installed`: debootstrap already brought GRUB in. */
    method EnsureChrootHasGrub2Installed(mountpoint: string, env: EnvMap)
      ensures unchanged(executor)
    {
    }

    /** `generate_grub_cfg_from_inside_chroot(mountpoint, env)`. */
    method GenerateGrubCfg(mountpoint: string, env: EnvMap) returns (ok: bool)
      modifies executor
      ensures var e := Exec([Commands.Chroot, mountpoint, "update-grub"], Some(env.vars));
        executor.log == old(executor.log) + [e] && ok == !Fails(e, executor.failing)
    {
      ok := executor.CheckCall([Commands.Chroot, mountpoint, "update-grub"], Some(env.vars));
    }

    /** `generate_initramfs_from_inside_chroot(mountpoint, env)`. */
    method GenerateInitramfs(mountpoint: string, env: EnvMap) returns (ok: bool)
      modifies executor
      ensures var e := Exec([Commands.Chroot, mountpoint, "update-initramfs", "-u", "-k", "all"], Some(env.vars));
        executor.log == old(executor.log) + [e] && ok == !Fails(e, executor.failing)
    {
      ok := executor.CheckCall([Commands.Chroot, mountpoint, "update-initramfs", "-u", "-k", "all"], Some(env.vars));
    }

    /** `perform_post_chroot_clean_up(mountpoint)`: the packages in apt's cache are deleted. */
    method PerformPostChrootCleanUp(mountpoint: string) returns (ok: bool)
      modifies executor
      ensures var archives := Join(Join(Join(Join(mountpoint, "var"), "cache"), "apt"), "archives");
        var e := Exec([Commands.Find, archives, "-type", "f", "-name", "*.deb", "-delete"], None);
        executor.log == old(executor.log) + [e] && ok == !Fails(e, executor.failing)
    {
      var archives := Join(Join(Join(Join(mountpoint, "var"), "cache"), "apt"), "archives");
      ok := executor.CheckCall([Commands.Find, archives, "-type", "f", "-name", "*.deb", "-delete"], None);
    }

    /** `_install_packages(packages, mountpoint, env)`: the caller's
        environment gets `DEBIAN_FRONTEND` set in place, if it was unset, and
        apt-get runs in it. */
    method InstallPackages(packages: seq<string>, mountpoint: string, env: EnvMap) returns (ok: bool)
      modifies executor, env
      ensures env.vars == WithFrontend(old(env.vars))
      ensures executor.log == old(executor.log) + [Exec(AptInstallArgv(mountpoint, packages), Some(env.vars))]
      ensures ok == !Fails(Exec(AptInstallArgv(mountpoint, packages), Some(env.vars)), executor.failing)
    {
      env.SetDefault("DEBIAN_FRONTEND", "noninteractive");
      var cmd := [Commands.Chroot, mountpoint, "apt-get", "install", "-y"] + packages;
      ok := executor.CheckCall(cmd, Some(env.vars));
    }

    method InstallSudo(mountpoint: string, env: EnvMap) returns (ok: bool)
      modifies executor, env
      ensures env.vars == WithFrontend(old(env.vars))
      ensures executor.log == old(executor.log) + [Exec(AptInstallArgv(mountpoint, ["sudo"]), Some(env.vars))]
      ensures ok == !Fails(Exec(AptInstallArgv(mountpoint, ["sudo"]), Some(env.vars)), executor.failing)
    {
      ok := InstallPackages(["sudo"], mountpoint, env);
    }

    method InstallCloudInitAndFriends(mountpoint: string, env: EnvMap) returns (ok: bool)
      modifies executor, env
      ensures env.vars == WithFrontend(old(env.vars))
      ensures var packages := ["cloud-init", "cloud-utils", "cloud-initramfs-growroot"];
        && executor.log == old(executor.log) + [Exec(AptInstallArgv(mountpoint, packages), Some(env.vars))]
        && ok == !Fails(Exec(AptInstallArgv(mountpoint, packages), Some(env.vars)), executor.failing)
    {
      ok := InstallPackages(["cloud-init", "cloud-utils", "cloud-initramfs-growroot"], mountpoint, env);
    }

    method InstallSshd(mountpoint: string, env: EnvMap) returns (ok: bool)
      modifies executor, env
      ensures env.vars == WithFrontend(old(env.vars))
      ensures executor.log == old(executor.log) + [Exec(AptInstallArgv(mountpoint, ["openssh-server"]), Some(env.vars))]
      ensures ok == !Fails(Exec(AptInstallArgv(mountpoint, ["openssh-server"]), Some(env.vars)), executor.failing)
    {
      ok := InstallPackages(["openssh-server"], mountpoint, env);
    }

    /** `make_openstack_services_autostart`: Debian starts them already. */
    method MakeOpenstackServicesAutostart(mountpoint: string, env: EnvMap)
      ensures unchanged(executor)
    {
    }
  }
}
