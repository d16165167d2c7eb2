/** The station configuration (`globalSettings`) and the policy
    `readSettings` applies to the outcome of reading the configuration
    file. The file system and the JSON codec are not modelled: the file is
    an input (missing, unreadable, or its bytes) and the decoder a function
    parameter; saving is recorded as the settings value written. */
module Settings {
  import opened Wrappers
  import opened Bytes

  const ModeTx: int := 0
  const ModeRx: int := 1
  /** `readSettings` reads at most this many bytes of the file. */
  const ReadLimit: nat := 1024

  datatype Settings = Settings(mode: int, radioModMode: byte, freq: real, manualLat: real, manualLng: real)

  /** `defaultSettings`: transmit mode on 915 MHz with modulation mode 1;
      the manual position is left as it was. */
  function Defaults(s: Settings): (r: Settings)
    ensures r.mode == ModeTx && r.freq == 915.00 && r.radioModMode == 1
    ensures r.manualLat == s.manualLat && r.manualLng == s.manualLng
  {
    s.(mode := ModeTx, freq := 915.00, radioModMode := 1)
  }

  /** What opening and reading the configuration file gives. */
  datatype ConfigFile = CannotOpen | ReadError | Contents(bytes: seq<byte>)

  /** The bytes the single `Read` call into a 1024-byte buffer returns, or
      None when it fails: an empty file yields end-of-file. */
  function FirstRead(file: ConfigFile): (r: Option<seq<byte>>)
    ensures r.Some? <==> file.Contents? && |file.bytes| > 0
    ensures r.Some? ==> 0 < |r.value| <= ReadLimit && |r.value| <= |file.bytes|
    ensures r.Some? ==> r.value == file.bytes[..|r.value|]
    ensures r.Some? && |r.value| < ReadLimit ==> r.value == file.bytes
  {
    match file
    case CannotOpen => None
    case ReadError => None
    case Contents(bytes) =>
      if |bytes| == 0 then None
      else if |bytes| <= ReadLimit then Some(bytes) else Some(bytes[..ReadLimit])
  }

  /** The settings after `readSettings`, and whether it saved them. */
  datatype Loaded = Loaded(settings: Settings, saved: bool)

  /** `readSettings`: an open failure installs the defaults and saves them; a
      read or decode failure installs the defaults without saving; a decoded
      file replaces the settings wholesale. */
  function ReadSettings(current: Settings, file: ConfigFile, decode: seq<byte> -> Option<Settings>): (r: Loaded)
    ensures file.CannotOpen? ==> r == Loaded(Defaults(current), true)
    ensures r.saved ==> file.CannotOpen?
    ensures !file.CannotOpen? ==> !r.saved
    ensures (FirstRead(file).Some? && decode(FirstRead(file).value).Some?) ==> r.settings == decode(FirstRead(file).value).value
    ensures (FirstRead(file).None? || decode(FirstRead(file).value).None?) ==> r.settings == Defaults(current)
  {
    if file.CannotOpen? then Loaded(Defaults(current), true)
    else
      var chunk := FirstRead(file);
      if chunk.None? then Loaded(Defaults(current), false)
      else
        var parsed := decode(chunk.value);
        if parsed.None? then Loaded(Defaults(current), false) else Loaded(parsed.value, false)
  }

  /** The receiver only runs in receive mode. */
  predicate ReceiveEnabled(s: Settings)
  {
    s.mode == ModeRx
  }

  /** A file that cannot be used never leaves the receiver enabled. */
  lemma FailedLoadDisablesReceiver(current: Settings, file: ConfigFile, decode: seq<byte> -> Option<Settings>)
    requires FirstRead(file).None? || decode(FirstRead(file).value).None?
    ensures !ReceiveEnabled(ReadSettings(current, file, decode).settings)
  {
  }

  /** Bytes past the first 1024 never influence the outcome. */
  lemma OnlyFirstKilobyteRead(current: Settings, b1: seq<byte>, b2: seq<byte>, decode: seq<byte> -> Option<Settings>)
    requires |b1| >= ReadLimit && |b2| >= ReadLimit && b1[..ReadLimit] == b2[..ReadLimit]
    ensures ReadSettings(current, Contents(b1), decode) == ReadSettings(current, Contents(b2), decode)
  {
  }

  /** `globalSettings` and the settings file, updated in place. */
  class Store {
    var settings: Settings
    /** The values `saveSettings` wrote, oldest first. */
    var saves: seq<Settings>

    constructor (initial: Settings)
      ensures settings == initial && saves == []
    {
      settings := initial;
      saves := [];
    }

    /** `defaultSettings`. */
    method InstallDefaults()
      modifies this
      ensures settings == Defaults(old(settings)) && saves == old(saves)
    {
      settings := settings.(mode := ModeTx);
      settings := settings.(freq := 915.00);
      settings := settings.(radioModMode := 1);
    }

    /** `saveSettings`. */
    method Save()
      modifies this
      ensures settings == old(settings) && saves == old(saves) + [settings]
    {
      saves := saves + [settings];
    }

    /** `readSettings`. */
    method Read(file: ConfigFile, decode: seq<byte> -> Option<Settings>)
      modifies this
      ensures settings == ReadSettings(old(settings), file, decode).settings
      ensures saves == old(saves) + if ReadSettings(old(settings), file, decode).saved then [settings] else []
    {
      if file.CannotOpen? {
        InstallDefaults();
        Save();
        return;
      }
      var buf: seq<byte>;
      var count: nat;
      match file {
        case ReadError =>
          InstallDefaults();
          return;
        case Contents(bytes) =>
          count := if |bytes| <= ReadLimit then |bytes| else ReadLimit;
          buf := bytes[..count];
      }
      if count == 0 {
        InstallDefaults();
        return;
      }
      var newSettings := decode(buf);
      if newSettings.None? {
        InstallDefaults();
        return;
      }
      settings := newSettings.value;
    }
  }
}
