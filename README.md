# image-bootstrap, modelled in Dafny

image-bootstrap builds bootable disk images and chroot directories for Arch
Linux and Debian. This project models five parts of it and proves
properties about them:

- **The mount-table resolver** (`image_bootstrap/mount.py`, module `Mount`).
  `MountFinder.load` reads lines of the kernel's `/proc/<pid>/mountinfo`
  table with a fixed grammar and appends each line's mount field to a list.
  `below` lists the stored mount points at or under a directory. It compares
  `os.path.normpath` forms that end in a separator, so `/mnt/xy` is never
  counted as being below `/mnt/x`. `os.path.normpath` and `os.path.join` are
  written out the way Python's `posixpath` defines them (module `PosixPath`).
  That includes the rule that keeps exactly two leading slashes, and relative
  paths.
- **The Debian strategy** (`image_bootstrap/distros/debian.py`, module
  `Debian`). It covers:
  - the release check and the host-architecture check;
  - the kernel package name;
  - the debootstrap command line and its `--include` list;
  - the network configuration file;
  - the chroot commands;
  - `DEBIAN_FRONTEND`, set in place in the caller's environment.
- **The Arch Linux strategy** (`image_bootstrap/distros/arch.py`, module
  `ImageArch`). It covers:
  - the architecture alias `amd64` → `x86_64` and the architecture check;
  - the commands checked for on the host;
  - the network configuration (a symbolic link, then a unit file);
  - the pacman, grub, mkinitcpio, sed and find command lines;
  - the `systemctl enable` loop.
- **The Arch Linux directory bootstrapper** (`directory_bootstrap/distros/arch.py`,
  module `DirectoryArch`). It covers:
  - the three release-date regular expressions and the `--image-date` parser;
  - choosing the latest date from the links of a download listing;
  - cache file names and download addresses, including skipping a download
    when the file is already cached;
  - the gpg command prefix;
  - the chroot environment;
  - the pacman mirror-list append;
  - the chroot stage of `run`: the bind mount of the target, the non-disk
    mounts in task order, keyring set-up and pacstrap, and the unmounts in
    reverse order, nested in their `try`/`finally` blocks.
- **The console messenger** (`directory_bootstrap/shared/messenger.py`,
  module `Messaging`). It covers:
  - shell escaping of announced command lines;
  - `colorize`, which wraps text in colour codes;
  - which messages each verbosity lets through to standard output and
    standard error.

The command executor is an abstract recorder (module `Host`). It logs every
command line it is asked to run, with the environment passed along, and every
call to `try_unmounting`. A fixed set of command lines stands for the
commands that exit non-zero. A `check_call` of one of them raises, and that
ends the enclosing block. Each method that runs commands returns `ok`, which
is false exactly when the source would raise. The files that the strategies
write are a map from path to a file's content or a symbolic link's target.
Printing appends to a standard-output or standard-error string.

The constants of the source are Dafny constants with the same values:
`DISTRO_KEY`, the names, the default release and mirrors, the grub-install
command, the cloud-init data-source path, `_ETC_NETWORK_INTERFACES_CONTENT`,
`_NON_DISK_MOUNT_TASKS`, `SUPPORTED_ARCHITECTURES` and
`_GPG_DISPLAY_KEY_FORMAT`. Three groups are defined in files that are not
part of this model:
- the command names (`directory_bootstrap/shared/commands.py`);
- `COMMAND_CHROOT` and `BOOTLOADER__NONE` (`image_bootstrap/engine.py`).
The model gives these their conventional values (`chroot`, `mount`, …,
`none`).

## Model

| member | source | states |
|---|---|---|
| Mount.ParseFormat | image_bootstrap/mount.py:11-17 | Every record whose groups have the shapes the grammar allows is matched in the line that spells it out, giving back exactly those groups. |
| Mount.ParseSound | image_bootstrap/mount.py:11-17 | Conversely, every line the grammar accepts is the spelling of the groups it captured, possibly followed by one newline (which `$` lets through). Every captured group has its proper shape. |
| Mount.RemainderSound | image_bootstrap/mount.py:17 | `.+$` accepts a non-empty, newline-free rest, possibly followed by one final newline, and nothing else. |
| Mount.ParseMountInfoLine | image_bootstrap/mount.py:11-17 | `_PROC_PID_MOUNTINFO_LINE.match` with its named groups. It has no contract of its own: `ParseFormat` and `ParseSound` state exactly which lines it matches and what it captures. |
| Mount.MountFieldShape | image_bootstrap/mount.py:15-16 | The mount group of an accepted line starts with `/` and contains no space: an escaped space stays as `\040`. |
| Mount.MountOf | image_bootstrap/mount.py:29-32 | The path appended for one line: `rstrip`, then the match, then the `mount` group. It has no contract of its own: `LoadsWrittenLine`, `MountsOnePerLine` and `MountsAreAbsolute` state its properties. |
| Mount.LoadsWrittenLine | image_bootstrap/mount.py:29-32 | A line as the kernel writes it, newline included, is loaded as its mount field once `rstrip` has removed the newline. |
| Mount.MountsOnePerLine | image_bootstrap/mount.py:28-32 | `load` appends one mount path per line, in file order: each path is the mount group of its own line. All lines contribute exactly when every line is accepted. Otherwise the line after the appended ones is the first one rejected. |
| Mount.MountsAreAbsolute | image_bootstrap/mount.py:11-32 | Every path `load` stores starts with `/` and contains no space. |
| Mount.MountFinder.constructor | image_bootstrap/mount.py:21-22 | A new finder holds no mount points. |
| Mount.MountFinder.Load | image_bootstrap/mount.py:24-33 | The finder's list becomes the old list plus the mount paths of the lines, so a second `load` extends the list rather than replacing it. No error is reported exactly when every line matches. Otherwise the error carries the index of the first rejected line, and the paths before it stay appended. |
| Mount.MountFinder.Below | image_bootstrap/mount.py:41-48 | The generator's output, produced in a loop over the stored list (which it only reads), is the per-candidate selection concatenated in stored order. |
| Mount.BelowOne | image_bootstrap/mount.py:42-48 | What `below` yields for one candidate. It has no contract of its own: `BelowOneSelects` states when it yields and what. |
| Mount.BelowAll | image_bootstrap/mount.py:41-48 | What `below` yields over the stored list, candidate by candidate in stored order. It has no contract of its own: `BelowAllAppend`, `BelowAllEmpty`, `BelowRelative` and `MountFinder.Below` state its properties. |
| Mount.BelowOneSelects | image_bootstrap/mount.py:35-47 | For absolute paths, a candidate is yielded exactly when the query's normpath components are a prefix of the candidate's, with the same leading slashes, so the comparison is separator-aware. The query itself is yielded only when `inclusive` is set. What is yielded is `normpath(candidate)`, with no trailing separator. |
| Mount.BelowAllAppend | image_bootstrap/mount.py:43-48 | `below` keeps the stored order: the output for two lists one after the other is the first list's output followed by the second's. |
| Mount.BelowAllEmpty | image_bootstrap/mount.py:41-48 | The output is empty, with no error, exactly when no stored mount point is at or under the query. |
| Mount.BelowRelative | image_bootstrap/mount.py:42-45 | A relative query selects no absolute mount point. |
| Mount.SiblingSharingAPrefix | image_bootstrap/mount.py:42-47 | Take stored points `/d/x`, `/d/x/c` and `/d/xy` and query `/d/x`. Without `inclusive` the output is only `/d/x/c`; with it, `/d/x` and `/d/x/c`. The sibling `/d/xy` is never in the output. |
| PosixPath.NormalForm | image_bootstrap/mount.py:35-36 | `normpath` leaves a path already in normal form, `/c1/…/cn`, unchanged, with exactly the components `c1 … cn`. |
| PosixPath.NormPathOfWithTrailingSlash | image_bootstrap/mount.py:38-39 | Normalising the separator-terminated normal form of an absolute path gives back its normal form. |
| PosixPath.NormalisedPrefixComponents | image_bootstrap/mount.py:42-45 | For absolute paths, `startswith` on the separator-terminated normal forms amounts to a prefix test on components with the same leading slashes. The one exception is the root against a path that starts with exactly `//`. |
| PosixPath.RelativeNeverPrefix | image_bootstrap/mount.py:42-45 | The separator-terminated form of a relative query is never a prefix of that of an absolute path. |
| PosixPath.NormPath | image_bootstrap/mount.py:35-36 | `os.path.normpath`: the result is never empty, and it is absolute when the input is. `NormalForm` and `NormPathOfWithTrailingSlash` state the rest. |
| PosixPath.Join | image_bootstrap/mount.py:38-39 | `os.path.join` of two parts. It has no contract of its own: `JoinParts` and `JoinNames` state its properties. |
| PosixPath.JoinParts | image_bootstrap/mount.py:38-39 | The joined path ends with the second part. Unless that part is absolute, the path starts with the first part, and a separator goes between them exactly when the first part is non-empty and does not already end with one. |
| PosixPath.JoinNames | image_bootstrap/distros/debian.py:127 | Joining three relative names gives the directory followed by the names, with single separators between them. A separator goes after the directory unless it is empty or already ends with one. |
| Text.RStrip | image_bootstrap/mount.py:30 | `rstrip()` returns a prefix of its input that ends in a non-whitespace character; only whitespace was removed. |
| Debian.CheckRelease | image_bootstrap/distros/debian.py:63-66 | The release check fails exactly for `stable` and `testing`, with the message asking for names like `jessie`. Every other string passes. |
| Debian.KernelPackageName | image_bootstrap/distros/debian.py:77-81 | The kernel package always starts with `linux-image-`. |
| Debian.KernelPackageNameInjective | image_bootstrap/distros/debian.py:77-81 | Two architectures with the same package name are equal, except for `i386` and `686-pae`, which share `linux-image-686-pae`. |
| Debian.CheckArchitecture | image_bootstrap/distros/debian.py:83-97 | A passing check returns the architecture unchanged. A mismatch names the architecture and the host machine with its trailing whitespace removed. `CheckArchitectureMismatch` states when each happens. |
| Debian.MachineMismatch.Message | image_bootstrap/distros/debian.py:33-35 | `_ArchitectureMachineMismatch.__str__`: the source's format string with the architecture and the machine filled in. It has no contract of its own, and `CheckArchitectureMismatch` states which architecture and machine the raised mismatch carries. |
| Debian.CheckArchitectureMismatch | image_bootstrap/distros/debian.py:83-97 | The check raises exactly for `amd64` on a host other than `x86_64`, and for `i386` on a host outside `i386`, `i486`, `i586`, `i686` and `x86_64`. The raised mismatch names the architecture and the stripped host machine. Otherwise the architecture is returned unchanged. |
| Debian.CheckArchitectureIgnoresNewline | image_bootstrap/distros/debian.py:84-85 | The newline `uname -m` prints after the machine name does not change the outcome. |
| Debian.ExtraPackagesIncludeGrub | image_bootstrap/distros/debian.py:103-108 | The include list is `initramfs-tools` and the kernel package, followed by `grub-pc` exactly when the bootloader approach is not `none`. |
| Debian.ExtraPackages | image_bootstrap/distros/debian.py:103-108 | The `--include` packages. It has no contract of its own: `ExtraPackagesIncludeGrub` states its contents. |
| Debian.DebootstrapArgv | image_bootstrap/distros/debian.py:110-123 | The debootstrap command line. It has no contract of its own: `DebootstrapArgvParts` states its parts. |
| Debian.DebootstrapArgvParts | image_bootstrap/distros/debian.py:110-123 | The command line is made of these parts, in order: `unshare --mount -- <debootstrap> --arch A`, then `--include=` with a comma-joined list that splits back into the packages, then the extra options in order, then release, target and mirror. |
| Debian.DebianStrategy.CommandsToCheckFor | image_bootstrap/distros/debian.py:68-75 | The pre-flight list is `chroot`, `find`, `uname`, `unshare`, then the configured debootstrap command. |
| Debian.DebianStrategy.RunDirectoryBootstrap | image_bootstrap/distros/debian.py:99-124 | Builds the include list by appending, then records exactly the debootstrap command line, with no environment. It fails when that command fails. |
| Debian.InterfacesFile | image_bootstrap/distros/debian.py:127 | `os.path.join(abs_mountpoint, 'etc', 'network', 'interfaces')`. It has no contract of its own: `InterfacesFilePath` states the path. |
| Debian.InterfacesFilePath | image_bootstrap/distros/debian.py:127 | The written file is `etc/network/interfaces` below the mount point. A separator is added after the mount point unless it is empty or already ends with one. |
| Debian.DebianStrategy.CreateNetworkConfiguration | image_bootstrap/distros/debian.py:126-131 | `etc/network/interfaces` under the mount point ends up holding the constant content plus one newline, whatever was there before. Nothing else changes. |
| Debian.DebianStrategy.EnsureChrootHasGrub2Installed | image_bootstrap/distros/debian.py:133-134 | Runs nothing. |
| Debian.DebianStrategy.GenerateGrubCfg | image_bootstrap/distros/debian.py:139-145 | Records `chroot mp update-grub` with the given environment. |
| Debian.DebianStrategy.GenerateInitramfs | image_bootstrap/distros/debian.py:147-155 | Records `chroot mp update-initramfs -u -k all` with the given environment. |
| Debian.DebianStrategy.PerformPostChrootCleanUp | image_bootstrap/distros/debian.py:157-166 | Records the `find` that deletes the `*.deb` files under `var/cache/apt/archives`. |
| Debian.AptInstallArgv | image_bootstrap/distros/debian.py:171-177 | The install command is `chroot mp apt-get install -y` followed by the packages, in order. |
| Debian.WithFrontend | image_bootstrap/distros/debian.py:170 | `setdefault` sets `DEBIAN_FRONTEND=noninteractive` only when the key is absent, and leaves every other key and value unchanged. |
| Debian.WithFrontendIdempotent | image_bootstrap/distros/debian.py:170 | Setting the default twice is the same as setting it once. |
| Host.EnvMap.SetDefault | image_bootstrap/distros/debian.py:170 | `env.setdefault(key, value)` in place: a key already present leaves the map unchanged. Otherwise exactly that key is added with the value. |
| Debian.DebianStrategy.InstallPackages | image_bootstrap/distros/debian.py:168-178 | The caller's environment is changed in place as `setdefault` does. The apt-get command is recorded with that updated environment. |
| Debian.DebianStrategy.InstallSudo | image_bootstrap/distros/debian.py:180-181 | Installs `sudo` as above. |
| Debian.DebianStrategy.InstallCloudInitAndFriends | image_bootstrap/distros/debian.py:183-185 | Installs `cloud-init`, `cloud-utils` and `cloud-initramfs-growroot`, in that order. |
| Debian.DebianStrategy.InstallSshd | image_bootstrap/distros/debian.py:190-191 | Installs `openssh-server`. |
| Debian.DebianStrategy.MakeOpenstackServicesAutostart | image_bootstrap/distros/debian.py:193-194 | Runs nothing. |
| ImageArch.CommandsToCheckFor | image_bootstrap/distros/arch.py:34-39 | The pre-flight list is the bootstrapper's five commands followed by `chroot`, `find` and `sed`. |
| ImageArch.CommandsToCheckForChrootTwice | image_bootstrap/distros/arch.py:34-39 | `chroot` appears exactly twice, first and sixth, and every command of the bootstrapper is on the list. |
| ImageArch.CheckArchitecture | image_bootstrap/distros/arch.py:41-48 | An accepted architecture comes back as a supported one: unchanged, or `x86_64` for `amd64`. `CheckArchitectureAccepts` states which are accepted. |
| ImageArch.CheckArchitectureAccepts | image_bootstrap/distros/arch.py:41-48 | Exactly `amd64`, `i686` and `x86_64` are accepted. `amd64` becomes `x86_64`, the other two are returned unchanged, and every result is a supported architecture. |
| ImageArch.CheckArchitectureIdempotent | image_bootstrap/distros/arch.py:41-48 | Checking an accepted architecture's result again gives the same result. |
| ImageArch.PacmanInstallArgv | image_bootstrap/distros/arch.py:82-88 | The install command is `chroot mp pacman --noconfirm --sync` followed by the packages, in order. |
| ImageArch.ArchStrategy.InstallPackages | image_bootstrap/distros/arch.py:81-89 | Records the pacman command with the caller's environment, passed through unmodified. |
| ImageArch.ArchStrategy.EnsureChrootHasGrub2Installed | image_bootstrap/distros/arch.py:91-92 | Installs `grub`. |
| ImageArch.ArchStrategy.InstallSudo | image_bootstrap/distros/arch.py:135-136 | Installs `sudo`. |
| ImageArch.ArchStrategy.InstallCloudInitAndFriends | image_bootstrap/distros/arch.py:138-139 | Installs `cloud-init`. |
| ImageArch.ArchStrategy.InstallSshd | image_bootstrap/distros/arch.py:144-145 | Installs `openssh`. |
| ImageArch.ArchStrategy.GenerateGrubCfg | image_bootstrap/distros/arch.py:97-104 | Records `chroot mp grub-mkconfig -o /boot/grub/grub.cfg` with the given environment. |
| ImageArch.ArchStrategy.AdjustInitramfsGeneratorConfig | image_bootstrap/distros/arch.py:106-114 | Records the in-place `sed` of `etc/mkinitcpio.d/linux.preset`, with no environment. |
| ImageArch.ArchStrategy.GenerateInitramfs | image_bootstrap/distros/arch.py:116-123 | Records `chroot mp mkinitcpio -p linux` with the given environment. |
| ImageArch.ArchStrategy.PerformPostChrootCleanUp | image_bootstrap/distros/arch.py:125-133 | Records the `find` that deletes the files of `var/cache/pacman/pkg/`. |
| ImageArch.ArchStrategy.CreateNetworkConfiguration | image_bootstrap/distros/arch.py:66-79 | When the `80-net-setup-link.rules` path is free, it becomes a link to `/dev/null` and the `.network` unit is written. When the path already exists, as on a second call, the call fails before anything is written. Either way the link's path exists afterwards. |
| ImageArch.ServiceEvents | image_bootstrap/distros/arch.py:147-157 | One `chroot mp systemctl enable S` per service, in the given order. |
| ImageArch.ArchStrategy.MakeServicesAutostart | image_bootstrap/distros/arch.py:147-157 | Runs the commands in order until one fails. `ok` holds exactly when all of them succeed. |
| ImageArch.ArchStrategy.MakeOpenstackServicesAutostart | image_bootstrap/distros/arch.py:159-167 | The same, for the six OpenStack services. |
| ImageArch.OpenstackServicesRecorded | image_bootstrap/distros/arch.py:159-167 | When all succeed, exactly six commands are recorded, the `k`-th enabling the `k`-th listed service. Otherwise the record ends with the first command that failed. |
| DirectoryArch.DateOfPartsIsDate | directory_bootstrap/distros/arch.py:39-45 | A date made of year, month and day with the given separator matches exactly when the year is `[2-9][0-9]{3}`, the month `0[1-9]` or `1[12]`, and the day `0[1-9]`, `[12][0-9]` or `3[01]`. |
| DirectoryArch.YearOkValue | directory_bootstrap/distros/arch.py:39 | Four digits match the year pattern exactly when their value is between 2000 and 9999. |
| DirectoryArch.MonthOkValue | directory_bootstrap/distros/arch.py:40 | Two digits match the month pattern exactly when their value is 1 to 9, 11 or 12. |
| DirectoryArch.DayOkValue | directory_bootstrap/distros/arch.py:41 | Two digits match the day pattern exactly when their value is 1 to 31. |
| DirectoryArch.DateArgparseType | directory_bootstrap/distros/arch.py:45-52 | The `--image-date` parser. It has no contract of its own: `DateArgparseTypeAccepts`, `DateArgparseTypeSound` and `OctoberIsRejected` state what it accepts and returns. |
| DirectoryArch.FirstDateAt | directory_bootstrap/distros/arch.py:97 | Finds the leftmost position at or after the start where a date begins, or reports that there is none. |
| DirectoryArch.Search | directory_bootstrap/distros/arch.py:97 | What `search` yields is a date with the matcher's separator. |
| DirectoryArch.SearchLeftmost | directory_bootstrap/distros/arch.py:97 | `search` yields nothing exactly when no date starts anywhere in the text. Otherwise it yields the date at the leftmost position where one starts. |
| DirectoryArch.SearchOfDate | directory_bootstrap/distros/arch.py:97 | A text that is itself a date yields exactly itself. |
| DirectoryArch.DateArgparseTypeAccepts | directory_bootstrap/distros/arch.py:45-52 | Every year 2000–9999, month 1–9, 11 or 12 and day 1–31 written as `YYYY-MM-DD` is read back as the same triple. A final newline, which `$` allows, gives the same triple. |
| DirectoryArch.DateArgparseTypeSound | directory_bootstrap/distros/arch.py:45-52 | Every accepted text is such a date, possibly followed by one newline. Everything else raises the `ValueError`. |
| DirectoryArch.OctoberIsRejected | directory_bootstrap/distros/arch.py:40-52 | Any text with `10` in the month position is rejected, so `2015-10-01` raises. |
| DirectoryArch.PadLeft | directory_bootstrap/distros/arch.py:298 | `%04s` on a string: a string shorter than four characters becomes spaces followed by the string, four characters in all; a longer string is left unchanged. The string is always the suffix of the result, and every character before it is a space. |
| DirectoryArch.ImageDateString | directory_bootstrap/distros/arch.py:298 | The `%04s.%02d.%02d` formatting of an `--image-date` triple. It has no contract of its own: `ImageDateOfArgument` states its shape. |
| DirectoryArch.ImageDateOfArgument | directory_bootstrap/distros/arch.py:298 | An `--image-date` triple is formatted as the same digits separated by dots, which the image-date matcher finds in it. |
| DirectoryArch.FirstMissing | directory_bootstrap/distros/arch.py:96-97 | Finds the first link without an `href`, which makes `search` raise. |
| DirectoryArch.LatestDate | directory_bootstrap/distros/arch.py:93-102 | The outcome of `_extract_latest_date`. It has no contract of its own: `LatestDateIsGreatest`, `LatestDateOfMissing` and `LatestDateOfComplete` state it. |
| DirectoryArch.LatestDateOfMissing | directory_bootstrap/distros/arch.py:96-97 | When link `i` is the first without an `href`, the call fails at link `i`. |
| DirectoryArch.LatestDateOfComplete | directory_bootstrap/distros/arch.py:95-102 | When every link has an `href`, the call fails with "no date" if no link holds a date. Otherwise it returns the greatest collected date. |
| DirectoryArch.ArchBootstrapper.ExtractLatestDate | directory_bootstrap/distros/arch.py:93-102 | The loop that collects the matched dates returns what `LatestDate` specifies. |
| DirectoryArch.LatestDateIsGreatest | directory_bootstrap/distros/arch.py:93-102 | The result is a date that occurs in some link, and no link's date is greater in string order. The call fails with "no date" exactly when every link has an `href` and none of them holds a date. |
| DirectoryArch.MatchedDatesMembers | directory_bootstrap/distros/arch.py:95-100 | The collected dates are exactly the leftmost dates of the links that have one. |
| Text.MaxLex | directory_bootstrap/distros/arch.py:102 | `sorted(dates)[-1]` is one of the dates, and no date is greater than it. |
| DirectoryArch.ArchBootstrapper.CommandsToCheckFor | directory_bootstrap/distros/arch.py:73-81 | The list has five commands, from `chroot` to `wget`, and `unshare` is not among them. |
| DirectoryArch.ArchBootstrapper.DownloadUrlToFile | directory_bootstrap/distros/arch.py:104-115 | A cache path that already has an entry records no command and succeeds. Otherwise exactly `wget -O<file> <url>` is recorded. An entry here is a file, or a link whatever its target. |
| DirectoryArch.ArchBootstrapper.DownloadKeyringPackage | directory_bootstrap/distros/arch.py:117-121 | Downloads the package from its address into `cache_dir/archlinux-keyring-<date>.tar.gz<suffix>` and returns that file name. |
| DirectoryArch.ArchBootstrapper.DownloadImage | directory_bootstrap/distros/arch.py:123-127 | Downloads the image from its address into `cache_dir/archlinux-bootstrap-<date>-<arch>.tar.gz<suffix>` and returns that file name. |
| DirectoryArch.KeyringPackageFile | directory_bootstrap/distros/arch.py:118 | The keyring package's cache file. It has no contract of its own: `DownloadNames` and `DownloadKeyringPackage` state it. |
| DirectoryArch.KeyringPackageUrl | directory_bootstrap/distros/arch.py:119 | The keyring package's address. It has no contract of its own: `DownloadNames` states that its last part is the cache file's name. |
| DirectoryArch.ImageFile | directory_bootstrap/distros/arch.py:124 | The bootstrap image's cache file. It has no contract of its own: `DownloadNames` and `DownloadImage` state it. |
| DirectoryArch.ImageUrl | directory_bootstrap/distros/arch.py:125 | The bootstrap image's address. It has no contract of its own: `DownloadNames` states that its last part is the cache file's name. |
| DirectoryArch.DownloadNames | directory_bootstrap/distros/arch.py:117-127 | Each cache file is the cache directory joined with the last part of its download address. A signature's file name is the file's name plus `.sig`. |
| DirectoryArch.GpgArgvStart | directory_bootstrap/distros/arch.py:129-137 | gpg runs under `unshare --fork --pid`, with the given home directory, the `0xlong` key format and `--batch`. |
| DirectoryArch.PacstrapInnerRoot | directory_bootstrap/distros/arch.py:184-187 | `_extract_image`'s inner root, joined as the source does. It has no contract of its own: `PacstrapInnerRootShape` states the path. |
| DirectoryArch.PacstrapInnerRootShape | directory_bootstrap/distros/arch.py:183-187 | The inner root is `<temp>/pacstrap_root/root.<architecture>`. |
| DirectoryArch.ChrootEnv | directory_bootstrap/distros/arch.py:193-200 | The chroot environment has no `LANG` and no `LANGUAGE`, has `LC_ALL=C`, keeps every other variable with its value, and adds no other variable. |
| DirectoryArch.ArchBootstrapper.MakeChrootEnv | directory_bootstrap/distros/arch.py:193-200 | The copy-pop-update loop computes `ChrootEnv` of the process environment. |
| DirectoryArch.ArchBootstrapper.AdjustPacmanMirrorList | directory_bootstrap/distros/arch.py:202-208 | The mirror list keeps its content as a prefix and gains `"\n## Added by directory-bootstrap\nServer = <url>\n"`. A missing file is created with just those lines. Nothing else changes. |
| DirectoryArch.ArchBootstrapper.InitializePacmanKeyring | directory_bootstrap/distros/arch.py:214-241 | Runs `pacman-key --init`, then `--populate archlinux`, under `unshare` and `chroot`, in the chroot environment, stopping at the first failure. |
| DirectoryArch.ArchBootstrapper.RunPacstrap | directory_bootstrap/distros/arch.py:243-253 | Records `chroot <inner> pacstrap /<rel>` in the chroot environment. |
| DirectoryArch.PacstrapTargetRelIsJoin | directory_bootstrap/distros/arch.py:319 | The relative target is `mnt/arch_root/`. |
| DirectoryArch.ArchBootstrapper.MountDiskChrootMounts | directory_bootstrap/distros/arch.py:255-261 | Records the bind mount of the target directory. |
| DirectoryArch.MountEvents | directory_bootstrap/distros/arch.py:263-273 | One mount per non-disk task, in task order. |
| DirectoryArch.ArchBootstrapper.MountNondiskChrootMounts | directory_bootstrap/distros/arch.py:263-273 | Runs the non-disk mounts in task order until one fails. `ok` holds exactly when all succeed. |
| DirectoryArch.ArchBootstrapper.UnmountDiskChrootMounts | directory_bootstrap/distros/arch.py:275-276 | Unmounts the target. |
| DirectoryArch.UnmountEvents | directory_bootstrap/distros/arch.py:278-282 | One unmount per task, over the tasks in reverse order. |
| DirectoryArch.ArchBootstrapper.UnmountNondiskChrootMounts | directory_bootstrap/distros/arch.py:278-282 | The reverse loop records exactly those unmounts. |
| DirectoryArch.UnmountsReverseMounts | directory_bootstrap/distros/arch.py:263-282 | The `k`-th unmount releases the mount point of the `k`-th mount counted from the end. |
| DirectoryArch.ArchBootstrapper.RunInsideNondiskMounts | directory_bootstrap/distros/arch.py:327-331 | Keyring set-up and pacstrap run until one fails, and the non-disk unmounts follow in every case. |
| DirectoryArch.ArchBootstrapper.RunChrootStage | directory_bootstrap/distros/arch.py:319-333 | Records exactly the stage's events: the bind mount; inside its `try`, the non-disk mounts; inside theirs, keyring set-up and pacstrap; each `finally` undoing its own mounts. `ok` is false exactly when one of these commands fails. |
| DirectoryArch.StageEvents | directory_bootstrap/distros/arch.py:319-333 | The events of the chroot stage. It has no contract of its own: `StageEventsCases`, `StageUnmountsLast`, `StageFailedMounts` and `StageSucceeds` state them. |
| DirectoryArch.StageEventsCases | directory_bootstrap/distros/arch.py:324-333 | The stage's events in its three cases. If the bind mount fails, it is the only event. If a non-disk mount fails, the events are the bind mount, the mounts up to the failed one, then the unmount of the target. If every mount succeeds, the events are the bind mount, the mounts, the work up to any failure, every non-disk unmount in reverse, then the unmount of the target. |
| DirectoryArch.StageUnmountsLast | directory_bootstrap/distros/arch.py:324-333 | Once the bind mount succeeds, the last event is the unmount of the target. When the non-disk mounts succeed, their three unmounts come right before it, whether or not keyring set-up or pacstrap failed. |
| DirectoryArch.StageFailedMounts | directory_bootstrap/distros/arch.py:324-333 | A failed bind mount ends the stage at once. A failed non-disk mount skips keyring set-up, pacstrap and every non-disk unmount, and only the target is unmounted. |
| DirectoryArch.StageSucceeds | directory_bootstrap/distros/arch.py:324-333 | The stage succeeds exactly when the bind mount, every non-disk mount, keyring set-up and pacstrap succeed. |
| Messaging.EscapeShellAppend | directory_bootstrap/shared/messenger.py:64-65 | Escaping works character by character: escaping a concatenation gives the concatenation of the escaped parts. |
| Messaging.EscapeShell | directory_bootstrap/shared/messenger.py:13-65 | `escape_shell`. It has no contract of its own: `EscapeShellAppend`, `EscapeShellLength` and `RemoveEscapesOfEscapeShell` state its properties. |
| Messaging.EscapeShellLength | directory_bootstrap/shared/messenger.py:13-65 | The escaped text is longer by exactly the number of characters in the set ``!`"'$ \{}()?*&<>;``. |
| Messaging.RemoveEscapesOfEscapeShell | directory_bootstrap/shared/messenger.py:64-65 | Removing each inserted backslash gives back the text, so every other character is left unchanged. |
| Messaging.AnnouncedLine | directory_bootstrap/shared/messenger.py:70 | The announced line starts with `# `. |
| Messaging.CommandWords | directory_bootstrap/shared/messenger.py:70 | The escaped arguments joined by single spaces. It has no contract of its own: `AnnouncedCommandReadsBack` states what it preserves. |
| Messaging.AnnouncedCommandReadsBack | directory_bootstrap/shared/messenger.py:64-70 | Split the announced words (after `# `) with a splitter that honours only space and backslash: an unescaped space ends a word, and a backslash makes the next character literal. That gives back exactly the original arguments, for every non-empty argument vector. |
| Messaging.UnescapedShellCharacters | directory_bootstrap/shared/messenger.py:13 | The pipe, tab, newline, `#`, `~`, `[` and `]` are not in the escaped set, and each passes through escaping unchanged. |
| Messaging.PipeAnnouncedUnescaped | directory_bootstrap/shared/messenger.py:13-70 | An argument made of `a`, a pipe and `b` is announced unchanged, which a POSIX shell would read as a pipeline. |
| Messaging.EmptyArgumentAnnouncedAsSpace | directory_bootstrap/shared/messenger.py:64-70 | The arguments `x` and the empty string are announced as `x ` with a trailing space, which a POSIX shell reads as the single word `x`. |
| Messaging.Messenger.constructor | directory_bootstrap/shared/messenger.py:36-41 | Quiet turns off infos and warnings. Only verbose turns on commands. Any other level turns on infos and warnings but not commands. |
| Messaging.Messenger.Colorize | directory_bootstrap/shared/messenger.py:43-55 | With colouring off, or with neither colour nor style, the text is returned unchanged. Otherwise the result starts with colour and style, and its length is theirs plus the text's plus the reset code's. A terminal displays exactly the text. |
| Messaging.Messenger.ColorizeChunks | directory_bootstrap/shared/messenger.py:43-55 | The chunk list built by appending and then joined is `Colorize`'s result. |
| Messaging.ColorizeDisplayed | directory_bootstrap/shared/messenger.py:47-55 | Colour codes around text free of escape characters are invisible: what is displayed is the text. |
| Messaging.MessagesDisplayed | directory_bootstrap/shared/messenger.py:76-87 | Info, warning, error and command lines display as their wording: `Warning: ` or `Error: ` and the text, or the text alone. |
| Messaging.Messenger.Banner | directory_bootstrap/shared/messenger.py:57-62 | Prints the banner and an empty line unless quiet. |
| Messaging.Messenger.AnnounceCommand | directory_bootstrap/shared/messenger.py:67-74 | Prints the cyan announced line only when commands are wanted. |
| Messaging.Messenger.Info | directory_bootstrap/shared/messenger.py:76-79 | Prints the green text unless quiet. |
| Messaging.Messenger.Warn | directory_bootstrap/shared/messenger.py:81-84 | Prints `Warning: ` and the text, in bright magenta, unless quiet. |
| Messaging.Messenger.Error | directory_bootstrap/shared/messenger.py:86-87 | Prints `Error: ` and the text, in bright red, to standard error, whatever the verbosity. |
| Messaging.Messenger.InfoGap | directory_bootstrap/shared/messenger.py:89-92 | Prints an empty line unless quiet. |
| Messaging.Messenger.EncourageBugReports | directory_bootstrap/shared/messenger.py:94-96 | Prints the bug-report request to standard error. |
| Host.Executor.CheckCall | image_bootstrap/distros/debian.py:124 | `executor.check_call`: one `Exec` event with the given environment is appended to the log. It reports failure exactly when the command line is one of the failing ones. |
| Host.Executor.TryUnmounting | directory_bootstrap/distros/arch.py:276 | `try_unmounting`: one `Unmount` event is appended to the log, and it never fails. |
| Host.FileSystem.Exists | directory_bootstrap/distros/arch.py:105 | `os.path.exists`: true exactly when the path has an entry, of either kind. It has no contract of its own: `DownloadUrlToFile` states what follows from it. A link counts as present whatever its target (see "## Left out"). |
| Host.FileSystem.WriteFile | image_bootstrap/distros/debian.py:129-131 | `open(path, 'w')` and writing: the path holds exactly the written content afterwards, and no other entry changes. |
| Host.FileSystem.AppendFile | directory_bootstrap/distros/arch.py:205-208 | `open(path, 'a')` and writing: an existing file's content gains the text at its end. Any other entry at that path is replaced by a file holding just the text. No other entry changes. |
| Host.FileSystem.MakeSymlink | image_bootstrap/distros/arch.py:68 | `os.symlink`: when the path is free it becomes a link to the target. When the path exists it fails, and nothing changes. |

## Left out

- Opening the mountinfo file, including the default file name built from `os.getpid()`: `load` takes the lines the file would yield.
- Downloading the listings with `requests`, and parsing them with BeautifulSoup. The latest-date extraction takes the `href` of every link, `None` for a link without one.
- What wget, gpg, tar, sed, find, pacman, apt-get, debootstrap and mount do: only their command lines are recorded.
- `_initialize_gpg_home` and `_verify_file_gpg`: these need tar extraction and gpg. Only their shared command prefix, `_get_gpg_argv_start`, is modelled.
- `_extract_image`: only its inner-root path is modelled.
- `_ensure_directory_writable`, `tempfile.mkdtemp`, `shutil.rmtree` and `os.makedirs`: real file-system effects. Directories are not modelled.
- The parts of `run` outside its chroot stage (lines 319-333): they are the download, verification and extraction steps above. `_copy_etc_resolv_conf` is left out because `filter_copy_resolv_conf` is not part of this model.
- The Arch strategy's `run_directory_bootstrap`, which only creates a bootstrapper and calls `run`. `run` is modelled only through its chroot stage.
- `unshare_current_process` and `check_for_commands` (`directory_bootstrap/shared/namespace.py` and `commands.py`), which are not part of this model.
- `try_unmounting` (`directory_bootstrap/shared/mount.py`), which is not part of this model: it is recorded as an unmount that never raises.
- Running `uname -m`: its output is a parameter of the Debian architecture check.
- The timing messages of `_initialize_pacman_keyring`, and every message the strategies and the bootstrapper send to the messenger.
- The banner's text and its release metadata, and the bug-report address. These are parameters.
- The colour values of `colorama`: a `Palette` of strings.
- Flushing standard output and standard error around `announce_command`.
- The argparse wiring: `add_parser_to`, `add_arguments_to` and `create`.
- `os.symlink` following an existing link. A path that exists, of either kind, makes it raise.
- Host.FileSystem.Exists: a path holding a symbolic link counts as present whatever the link points to. Python's `os.path.exists` follows the link and is false for a link whose target does not exist. So `DownloadUrlToFile` treats a dangling link at the cache path as a cached file and records no `wget`, where the source downloads. Link resolution is not modelled.
- DirectoryArch.ArchBootstrapper.DownloadUrlToFile: a dangling symbolic link at the cache path skips the download, because `Host.FileSystem.Exists` does not follow links. The source would run `wget` in that case.
- Host.FileSystem.WriteFile and Host.FileSystem.AppendFile: a path that holds a symbolic link is replaced by a regular file, while Python's `open` writes through the link to its target. Directories, and with them link resolution, are not modelled. This matters for the Debian `etc/network/interfaces` write, the Arch `.network` unit write and the pacman mirror-list append.
- Messaging.AnnouncedCommandReadsBack: the round trip goes through a splitter that honours only space and backslash, not through a POSIX shell. `escape_shell` leaves the pipe, tab, newline, `#`, `~`, `[` and `]` unescaped, and an empty argument is announced as nothing between two spaces. A shell reading the line can therefore see other words (`UnescapedShellCharacters`, `PipeAnnouncedUnescaped`, `EmptyArgumentAnnouncedAsSpace`).
- DirectoryArch.ArchBootstrapper.AdjustPacmanMirrorList: the three `print` calls are modelled as one append of the three lines. They go through one open file, so the resulting content is the same.
- DirectoryArch.ArchBootstrapper.InitializePacmanKeyring: the datetime measurement and its message are left out.
- `check_release` reads the configured release from the strategy; it is modelled by `Debian.CheckRelease`, a function of that release.
