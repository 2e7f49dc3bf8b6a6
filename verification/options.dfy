/** The option enumerations of `Configuration.cs` and the `Policy` record: the
    settings of one configuration item as the diff engine, the deployment
    loop and the main window read them. Several of those settings
    (`IncludeDirectoriesSetting`, `InclusionsListPatterns`,
    `StopServiceMethodSetting`, `KilledProcessesSetting`,
    `NextConfigurationSetting`) are read by the callers but not declared in
    `ConfigurationItem.cs`; the record holds them all. */
module Options {
  import opened GuidInfos

  /** How `Configuration.Load(path, mode)` merges an imported configuration. */
  datatype LoadMode = Append | Replace

  /** What to do with a file present on the left but not on the right. */
  datatype NonExistingFileOptions = Skip | Copy

  /** What to do with a file present on both sides and newer on one of them. */
  datatype ExistingFileOptions = Skip | Replace

  /** What to do when the destination file is held open by some process. */
  datatype LockedFileOptions = StopLockingProcesses | WaitForLockingProcesses | Skip

  /** Which entries a file view lists. */
  datatype FileViewOptions = ViewAllFiles | ViewPendingFiles | ViewExcludedFiles

  /** How a locking service is stopped. */
  datatype StopServiceMethods = ShutdownGracefully | Kill

  /** The setting values of one configuration item, as read at one moment. */
  datatype Policy = Policy(
    enabled: bool,
    includeDirectories: bool,
    leftButNotRight: NonExistingFileOptions,
    newerOnLeft: ExistingFileOptions,
    newerOnRight: ExistingFileOptions,
    exclusionPatterns: seq<string>,
    inclusionPatterns: seq<string>,
    lockedFile: LockedFileOptions,
    stopServiceMethod: StopServiceMethods,
    restartKilledProcesses: bool,
    fileView: FileViewOptions,
    nextConfiguration: GuidInfo,
    nextConfigurationSelected: bool)
}
