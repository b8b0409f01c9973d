/** Paired-device metadata: the plugin's record, its cache, and what the platform reports. */
module Devices {
  import opened Prelude
  import Decimal

  /** Codes of the autoconnect enumeration; the persistent store may hold others. */
  const DISABLED: Int64 := 0
  const ENABLED: Int64 := 1
  const UNSET: Int64 := 2

  const UNKNOWN := "UNKNOWN"
  const HUMAN_INTERFACE_DEVICE := "HUMAN INTERFACE DEVICE"

  datatype Info = Info(
    deviceAddr: string,
    deviceType: string,
    friendlyName: string,
    lastVolumeSetting: Int64,
    autoConnect: Int64,
    lastConnectTimeUtc: string)

  const DEFAULT_INFO := Info("", UNKNOWN, "", 0, UNSET, "")

  /** Device id (the platform handle in decimal) to metadata. */
  type Cache = map<string, Info>

  const HANDLE_LIMIT: nat := 0x1_0000_0000_0000_0000

  /** One entry of the platform's paired list; `deviceType` is the platform's
      type name, already "UNKNOWN" where the platform has none. */
  datatype Paired = Paired(handle: nat, deviceType: string, address: string, name: string)
  {
    function Id(): string {
      Decimal.Print(handle)
    }

    function NameOrId(): string {
      if name != "" then name else Id()
    }
  }

  /** The entries that are mirrored to the AS file: all but the remote controls. */
  function WithoutHid(cache: Cache): Cache {
    map id | id in cache && cache[id].deviceType != HUMAN_INTERFACE_DEVICE :: cache[id]
  }

  /** The five persisted fields of each entry (the id among them); address and
      name are not kept. */
  function Persisted(cache: Cache): Cache {
    map id | id in cache :: cache[id].(deviceAddr := "", friendlyName := "")
  }
}
