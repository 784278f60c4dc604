/** The commands of the shell (src/command.c) on the driver object, tied to whole runs. */
module Commands {
  import opened Bytes
  import opened Records
  import opened Layout
  import opened Driver
  import opened Runs

  /** What the user types is a C string. */
  predicate IsTyped(cmd: Command) {
    match cmd
    case DeleteCmd(d) => d.Some? ==> 0 !in d.value
    case UndeleteCmd(d) => 0 !in d
    case CdCmd(d) => d.Some? ==> 0 !in d.value
    case RemountCmd => true
  }

  ghost function SessionOf(vol: Volume): Session
    reads vol, vol.dev, vol.fat, vol.fatBak, vol.rootDir
  {
    Session(vol.State(), vol.currentPath)
  }

  /** `umount`, and `mount` of the same device, which is open at position 0 again. */
  method Remount(vol: Volume) returns (after: Volume)
    requires vol.Valid() && Mounted(vol.State()) && Mountable(SyncDisk(vol.State()))
    modifies vol, vol.fatBak, vol.dev
    ensures after.Valid() && after.currentPath == [SLASH]
    ensures after.State() == Mount(SyncDisk(old(vol.State())))
  {
    vol.WriteFat();
    var dev := new Device(vol.dev.bytes);
    after := new Volume.Mount(dev);
  }

  /** One command, carried out by the driver: the session that results is the one the run goes on with. */
  method Execute(vol: Volume, cmd: Command) returns (after: Volume)
    requires vol.Valid() && IsTyped(cmd) && Defined(SessionOf(vol), cmd)
    modifies vol, vol.fat, vol.fatBak, vol.rootDir, vol.dev
    ensures after.Valid()
    ensures SessionOf(after) == Step(old(SessionOf(vol)), cmd)
  {
    after := vol;
    match cmd
    case DeleteCmd(d) =>
      vol.DeleteFile(d);
    case UndeleteCmd(d) =>
      vol.UndeleteFile(d);
    case CdCmd(d) =>
      vol.Cd(d);
    case RemountCmd =>
      after := Remount(vol);
  }
}
