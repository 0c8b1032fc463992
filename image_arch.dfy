/** The Arch Linux strategy of `image_bootstrap/distros/arch.py`: the
    architecture check, the commands it needs on the host, the network
    configuration it writes, and the commands it runs in the chroot. */
module ImageArch {
  import opened Wrappers
  import opened PosixPath
  import opened Host
  import Commands
  import DirectoryArch

  const DistroKey := "arch"
  const DistroNameShort := "Arch"
  const DistroNameLong := "Arch Linux"

  /** `get_commands_to_check_for()`: the bootstrapper's commands, then those the strategy runs itself. */
  function CommandsToCheckFor(): (r: seq<string>)
    ensures |r| == 8 && r[..5] == DirectoryArch.ArchBootstrapper.CommandsToCheckFor()
    ensures r[5..] == [Commands.Chroot, Commands.Find, Commands.Sed]
  {
    DirectoryArch.ArchBootstrapper.CommandsToCheckFor() + [Commands.Chroot, Commands.Find, Commands.Sed]
  }

  /** Every command of the bootstrapper is checked for, and `chroot` is
      listed twice: first and sixth. */
  lemma CommandsToCheckForChrootTwice()
    ensures forall k :: 0 <= k < |CommandsToCheckFor()| ==> (CommandsToCheckFor()[k] == Commands.Chroot <==> k == 0 || k == 5)
    ensures forall c :: c in DirectoryArch.ArchBootstrapper.CommandsToCheckFor() ==> c in CommandsToCheckFor()
  {
    var r := CommandsToCheckFor();
    assert r == [Commands.Chroot, Commands.Gpg, Commands.Mount, Commands.Umount, Commands.Wget,
                 Commands.Chroot, Commands.Find, Commands.Sed];
  }

  /** `check_architecture(architecture)`: `amd64` is Arch's `x86_64`; the
      result must be one of the architectures the bootstrapper supports. */
  function CheckArchitecture(architecture: string): (r: Result<string, string>)
    ensures r.Ok? ==> r.value in DirectoryArch.SupportedArchitectures
    ensures r.Ok? ==> r.value == architecture || (architecture == "amd64" && r.value == "x86_64")
  {
    var a := if architecture == "amd64" then "x86_64" else architecture;
    if a !in DirectoryArch.SupportedArchitectures then Err("Architecture \"" + a + "\" not supported")
    else Ok(a)
  }

  /** Exactly `amd64`, `i686` and `x86_64` are accepted; `amd64` becomes
      `x86_64`, the others are returned as they are, and every result is a
      supported architecture. */
  lemma CheckArchitectureAccepts(architecture: string)
    ensures CheckArchitecture(architecture).Ok? <==> architecture in ["amd64", "i686", "x86_64"]
    ensures CheckArchitecture(architecture).Ok? ==>
      && CheckArchitecture(architecture).value == (if architecture == "amd64" then "x86_64" else architecture)
      && CheckArchitecture(architecture).value in DirectoryArch.SupportedArchitectures
  {
    assert DirectoryArch.SupportedArchitectures == ["i686", "x86_64"];
  }

  /** Checking an accepted architecture again changes nothing. */
  lemma CheckArchitectureIdempotent(architecture: string)
    requires CheckArchitecture(architecture).Ok?
    ensures CheckArchitecture(CheckArchitecture(architecture).value) == CheckArchitecture(architecture)
  {
    CheckArchitectureAccepts(architecture);
    CheckArchitectureAccepts(CheckArchitecture(architecture).value);
  }

  /** The symbolic link that keeps interfaces named `eth*`. */
  function NetSetupLinkRules(mountpoint: string): string {
    Join(mountpoint, "etc/udev/rules.d/80-net-setup-link.rules")
  }

  function NetworkFile(mountpoint: string): string {
    Join(mountpoint, "etc/systemd/network/eth0-dhcp.network")
  }

  /** The dedented `.network` unit, as printed (with one more newline). */
  const NetworkUnit := "\n[Match]\nName=eth0\n\n[Network]\nDHCP=both\n" + "\n"

  /** `chroot <mountpoint> pacman --noconfirm --sync <packages>`. */
  function PacmanInstallArgv(mountpoint: string, packages: seq<string>): (argv: seq<string>)
    ensures |argv| == 5 + |packages| && argv[5..] == packages
    ensures argv[..5] == [Commands.Chroot, mountpoint, "pacman", "--noconfirm", "--sync"]
  {
    [Commands.Chroot, mountpoint, "pacman", "--noconfirm", "--sync"] + packages
  }

  function ServiceEnable(mountpoint: string, service: string, env: Env): Event {
    Exec([Commands.Chroot, mountpoint, "systemctl", "enable", service], Some(env))
  }

  /** One `systemctl enable` per service, in the order given. */
  function ServiceEvents(mountpoint: string, services: seq<string>, env: Env): (r: seq<Event>)
    ensures |r| == |services| && forall k :: 0 <= k < |services| ==> r[k] == ServiceEnable(mountpoint, services[k], env)
    decreases |services|
  {
    if services == [] then [] else [ServiceEnable(mountpoint, services[0], env)] + ServiceEvents(mountpoint, services[1..], env)
  }

  /** The services `make_openstack_services_autostart` enables, in order. */
  const OpenstackServices: seq<string> :=
    ["systemd-networkd", "sshd", "cloud-init-local", "cloud-init", "cloud-config", "cloud-final"]

  /** The sed script that makes mkinitcpio's default options `-S autodetect`. */
  const DefaultOptionsSedScript := "s,^[# \\t]*default_options=.*,default_options=\"-S autodetect\"  # set by image-bootstrap,g"

  const Grub2InstallCommand := "grub-install"
  const CloudInitDatasourceCfgPath := "/etc/cloud/cloud.cfg.d/90_datasource.cfg"

  /** `ArchStrategy`: runs its commands through the executor and writes into the files given. */
  class ArchStrategy {
    const executor: Executor
    const files: FileSystem

    constructor (executor: Executor, files: FileSystem)
      ensures this.executor == executor && this.files == files
    {
      this.executor := executor;
      this.files := files;
    }

    /** `create_network_configuration(mountpoint)`: the link to `/dev/null`
        first, then the network unit. When the link's path already exists,
        `os.symlink` raises and nothing is written, so a second call fails. */
    method CreateNetworkConfiguration(mountpoint: string) returns (ok: bool)
      modifies files
      ensures ok == (NetSetupLinkRules(mountpoint) !in old(files.entries))
      ensures ok ==> files.entries == old(files.entries)[NetSetupLinkRules(mountpoint) := Symlink("/dev/null")]
                                                       [NetworkFile(mountpoint) := File(NetworkUnit)]
      ensures !ok ==> files.entries == old(files.entries)
      ensures NetSetupLinkRules(mountpoint) in files.entries
    {
      ok := files.MakeSymlink("/dev/null", Join(mountpoint, "etc/udev/rules.d/80-net-setup-link.rules"));
      if !ok {
        return;
      }
      var networkFilename := Join(mountpoint, "etc/systemd/network/eth0-dhcp.network");
      files.WriteFile(networkFilename, "\n[Match]\nName=eth0\n\n[Network]\nDHCP=both\n" + "\n");
    }

    /** `_install_packages(packages, mountpoint, env)`: the environment is passed on as it is. */
    method InstallPackages(packages: seq<string>, mountpoint: string, env: EnvMap) returns (ok: bool)
      modifies executor
      ensures executor.log == old(executor.log) + [Exec(PacmanInstallArgv(mountpoint, packages), Some(env.vars))]
      ensures ok == !Fails(Exec(PacmanInstallArgv(mountpoint, packages), Some(env.vars)), executor.failing)
    {
      var cmd := [Commands.Chroot, mountpoint, "pacman", "--noconfirm", "--sync"] + packages;
      ok := executor.CheckCall(cmd, Some(env.vars));
    }

    /** `ensure_chroot_has_grub2_installed`. */
    method EnsureChrootHasGrub2Installed(mountpoint: string, env: EnvMap) returns (ok: bool)
      modifies executor
      ensures executor.log == old(executor.log) + [Exec(PacmanInstallArgv(mountpoint, ["grub"]), Some(env.vars))]
      ensures ok == !Fails(Exec(PacmanInstallArgv(mountpoint, ["grub"]), Some(env.vars)), executor.failing)
    {
      ok := InstallPackages(["grub"], mountpoint, env);
    }

    method InstallSudo(mountpoint: string, env: EnvMap) returns (ok: bool)
      modifies executor
      ensures executor.log == old(executor.log) + [Exec(PacmanInstallArgv(mountpoint, ["sudo"]), Some(env.vars))]
      ensures ok == !Fails(Exec(PacmanInstallArgv(mountpoint, ["sudo"]), Some(env.vars)), executor.failing)
    {
      ok := InstallPackages(["sudo"], mountpoint, env);
    }

    method InstallCloudInitAndFriends(mountpoint: string, env: EnvMap) returns (ok: bool)
      modifies executor
      ensures executor.log == old(executor.log) + [Exec(PacmanInstallArgv(mountpoint, ["cloud-init"]), Some(env.vars))]
      ensures ok == !Fails(Exec(PacmanInstallArgv(mountpoint, ["cloud-init"]), Some(env.vars)), executor.failing)
    {
      ok := InstallPackages(["cloud-init"], mountpoint, env);
    }

    method InstallSshd(mountpoint: string, env: EnvMap) returns (ok: bool)
      modifies executor
      ensures executor.log == old(executor.log) + [Exec(PacmanInstallArgv(mountpoint, ["openssh"]), Some(env.vars))]
      ensures ok == !Fails(Exec(PacmanInstallArgv(mountpoint, ["openssh"]), Some(env.vars)), executor.failing)
    {
      ok := InstallPackages(["openssh"], mountpoint, env);
    }

    /** `generate_grub_cfg_from_inside_chroot(mountpoint, env)`. */
    method GenerateGrubCfg(mountpoint: string, env: EnvMap) returns (ok: bool)
      modifies executor
      ensures var e := Exec([Commands.Chroot, mountpoint, "grub-mkconfig", "-o", "/boot/grub/grub.cfg"], Some(env.vars));
        executor.log == old(executor.log) + [e] && ok == !Fails(e, executor.failing)
    {
      ok := executor.CheckCall([Commands.Chroot, mountpoint, "grub-mkconfig", "-o", "/boot/grub/grub.cfg"], Some(env.vars));
    }

    /** `adjust_initramfs_generator_config(mountpoint)`: sed edits the
        `linux` preset in place, run in the caller's environment. */
    method AdjustInitramfsGeneratorConfig(mountpoint: string) returns (ok: bool)
      modifies executor
      ensures var preset := Join(Join(Join(mountpoint, "etc"), "mkinitcpio.d"), "linux.preset");
        var e := Exec([Commands.Sed, DefaultOptionsSedScript, "-i", preset], None);
        executor.log == old(executor.log) + [e] && ok == !Fails(e, executor.failing)
    {
      var linuxPreset := Join(Join(Join(mountpoint, "etc"), "mkinitcpio.d"), "linux.preset");
      ok := executor.CheckCall([Commands.Sed, DefaultOptionsSedScript, "-i", linuxPreset], None);
    }

    /** `generate_initramfs_from_inside_chroot(mountpoint, env)`. */
    method GenerateInitramfs(mountpoint: string, env: EnvMap) returns (ok: bool)
      modifies executor
      ensures var e := Exec([Commands.Chroot, mountpoint, "mkinitcpio", "-p", "linux"], Some(env.vars));
        executor.log == old(executor.log) + [e] && ok == !Fails(e, executor.failing)
    {
      ok := executor.CheckCall([Commands.Chroot, mountpoint, "mkinitcpio", "-p", "linux"], Some(env.vars));
    }

    /** `perform_post_chroot_clean_up(mountpoint)`: the files of pacman's package cache are deleted. */
    method PerformPostChrootCleanUp(mountpoint: string) returns (ok: bool)
      modifies executor
      ensures var e := Exec([Commands.Find, Join(mountpoint, "var/cache/pacman/pkg/"), "-type", "f", "-delete"], None);
        executor.log == old(executor.log) + [e] && ok == !Fails(e, executor.failing)
    {
      ok := executor.CheckCall([Commands.Find, Join(mountpoint, "var/cache/pacman/pkg/"), "-type", "f", "-delete"], None);
    }

    /** `_make_services_autostart(services, mountpoint, env)`: one
        `systemctl enable` per service, in order, until one fails. */
    method MakeServicesAutostart(services: seq<string>, mountpoint: string, env: EnvMap) returns (ok: bool)
      modifies executor
      ensures executor.log == old(executor.log) + Attempted(ServiceEvents(mountpoint, services, env.vars), executor.failing)
      ensures ok == AllSucceed(ServiceEvents(mountpoint, services, env.vars), executor.failing)
    {
      var events := ServiceEvents(mountpoint, services, env.vars);
      for i := 0 to |services|
        invariant executor.log == old(executor.log) + events[..i]
        invariant AllSucceed(events[..i], executor.failing)
      {
        ok := executor.CheckCall([Commands.Chroot, mountpoint, "systemctl", "enable", services[i]], Some(env.vars));
        assert events[..i + 1] == events[..i] + [events[i]];
        if !ok {
          AttemptedUpToFailure(events, i, executor.failing);
          return;
        }
        AllSucceedAppend(events[..i], [events[i]], executor.failing);
        AllSucceedOne(events[i], executor.failing);
      }
      assert events[..|services|] == events;
      AttemptedAll(events, executor.failing);
      ok := true;
    }

    /** `make_openstack_services_autostart(mountpoint, env)`. */
    method MakeOpenstackServicesAutostart(mountpoint: string, env: EnvMap) returns (ok: bool)
      modifies executor
      ensures executor.log == old(executor.log) + Attempted(ServiceEvents(mountpoint, OpenstackServices, env.vars), executor.failing)
      ensures ok == AllSucceed(ServiceEvents(mountpoint, OpenstackServices, env.vars), executor.failing)
    {
      ok := MakeServicesAutostart(OpenstackServices, mountpoint, env);
    }
  }

  /** When they all succeed, the OpenStack services are enabled with six
      commands, the `k`-th enabling the `k`-th service of the list; otherwise
      the commands stop at the first that fails. */
  lemma OpenstackServicesRecorded(mountpoint: string, env: Env, failing: set<seq<string>>)
    ensures var events := Attempted(ServiceEvents(mountpoint, OpenstackServices, env), failing);
      AllSucceed(ServiceEvents(mountpoint, OpenstackServices, env), failing) ==>
        |events| == 6 && forall k :: 0 <= k < 6 ==>
          events[k] == Exec([Commands.Chroot, mountpoint, "systemctl", "enable", OpenstackServices[k]], Some(env))
    ensures var events := Attempted(ServiceEvents(mountpoint, OpenstackServices, env), failing);
      !AllSucceed(ServiceEvents(mountpoint, OpenstackServices, env), failing) ==>
        0 < |events| <= 6 && Fails(events[|events| - 1], failing) && AllSucceed(events[..|events| - 1], failing)
  {
    var all := ServiceEvents(mountpoint, OpenstackServices, env);
    if AllSucceed(all, failing) {
      AttemptedAll(all, failing);
    } else {
      var i := FirstFailure(all, failing);
      AttemptedUpToFailure(all, i, failing);
      var events := Attempted(all, failing);
      assert events[..|events| - 1] == all[..i];
    }
  }

  /** The position of the first command that fails. */
  lemma FirstFailure(events: seq<Event>, failing: set<seq<string>>) returns (i: nat)
    requires !AllSucceed(events, failing)
    ensures i < |events| && Fails(events[i], failing) && AllSucceed(events[..i], failing)
  {
    var k :| 0 <= k < |events| && Fails(events[k], failing);
    i := 0;
    while !Fails(events[i], failing)
      invariant i <= k && AllSucceed(events[..i], failing)
      decreases k - i
    {
      AllSucceedAppend(events[..i], [events[i]], failing);
      AllSucceedOne(events[i], failing);
      assert events[..i + 1] == events[..i] + [events[i]];
      i := i + 1;
    }
  }
}
