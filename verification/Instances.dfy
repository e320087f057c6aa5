/** Remmina installations, as the scan finds them and the registry, the locator and the launcher use them. */
module Instances {
  import opened Bytes

  type Id = ByteString

  datatype Kind = Native | Flatpak | Snap

  datatype Instance = Instance(id: Id, kind: Kind, executable: ByteString, launcherPrefix: seq<ByteString>)
}
