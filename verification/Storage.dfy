/** A user's configuration file and the three views stored in it: `src/storage.rs`. */
module Storage {
  import opened Prelude
  import opened Keychain
  import opened Mounts

  datatype StorageError =
    | IoError
    | JsonError
    | SerializationError
    | DeserializationError

  datatype UserConfig = UserConfig(
    version: nat,
    sessionCommand: Option<Str>,
    authData: Option<AuthDataSerialized>,
    mountpoints: Option<MountPointsConfig>)

  const NEW_CONFIG := UserConfig(0, None, None, None)

  datatype AuthDataSerialized = AuthDataSerialized(main: Option<Str>, secondary: seq<SecondaryAuthItem>)

  datatype SecondaryAuthItem = SecondaryAuthItem(name: Str, creationDate: nat, authType: nat, password: Str)

  datatype MountPointsConfig = MountPointsConfig(home: MountPointSerialized, additional: seq<MountPointSerialized>)

  datatype MountPointSerialized = MountPointSerialized(fstype: Str, device: Str, directory: Str, args: seq<Str>)

  /** The encoding libraries: bytevec, base64 and JSON. Encoding may fail, a successful encoding
      decodes back. */
  datatype Codec = Codec(
    encodeMain: MainPassword -> Option<Str>,
    decodeMain: Str -> Option<MainPassword>,
    encodeSecondary: SecondaryPassword -> Option<Str>,
    decodeSecondary: Str -> Option<SecondaryPassword>,
    toBase64: Str -> Str,
    fromBase64: Str -> Option<Str>,
    toJson: UserConfig -> Option<Str>,
    fromJson: Str -> Option<UserConfig>)

  ghost predicate Lawful(c: Codec) {
    && (forall m :: c.encodeMain(m).Some? ==> c.decodeMain(c.encodeMain(m).value) == Some(m))
    && (forall s :: c.encodeSecondary(s).Some? ==> c.decodeSecondary(c.encodeSecondary(s).value) == Some(s))
    && (forall b :: c.fromBase64(c.toBase64(b)) == Some(b))
    && (forall u :: c.toJson(u).Some? ==> c.fromJson(c.toJson(u).value) == Some(u))
  }

  /** Where a value stands in a list, in unary; nothing for a value that is not there. */
  function Place<T(==)>(items: seq<T>, x: T): (r: Option<Str>)
    ensures x in items ==> r.Some?
    ensures r.Some? ==> ValueAt(items, r.value) == Some(x)
  {
    if items == [] then None
    else if items[|items| - 1] == x then Some(Zeros(|items| - 1))
    else Place(items[..|items| - 1], x)
  }

  function ValueAt<T>(items: seq<T>, place: Str): Option<T> {
    if |place| < |items| then Some(items[|place|]) else None
  }

  /** A codec that knows the listed values and fails on all others. */
  function ListCodec(mains: seq<MainPassword>, secondaries: seq<SecondaryPassword>, configs: seq<UserConfig>): Codec {
    Codec(
      m => Place(mains, m), text => ValueAt(mains, text),
      s => Place(secondaries, s), text => ValueAt(secondaries, text),
      octets => octets, text => Some(text),
      u => Place(configs, u), text => ValueAt(configs, text))
  }

  /** The laws can be met by a codec that encodes any finite number of given values. */
  lemma ListCodecIsLawful(mains: seq<MainPassword>, secondaries: seq<SecondaryPassword>, configs: seq<UserConfig>)
    ensures var c := ListCodec(mains, secondaries, configs);
      && Lawful(c)
      && (forall m :: m in mains ==> c.encodeMain(m).Some?)
      && (forall s :: s in secondaries ==> c.encodeSecondary(s).Some?)
      && (forall u :: u in configs ==> c.toJson(u).Some?)
  {
  }

  /** Giving the file to its owner: not asked for, done, or refused by the kernel. */
  datatype Owner = Keep | Changed | Refused

  // ----- the configuration file as a whole

  /** `load_config_from_source`. */
  function LoadConfig(c: Codec, file: Option<Str>): Result<Option<UserConfig>, StorageError> {
    match file
    case None => Ok(None)
    case Some(text) =>
      match c.fromJson(text)
      case None => Err(JsonError)
      case Some(config) => Ok(Some(config))
  }

  /** What a store starts from: the configuration in the file, or a new one. */
  function Existing(c: Codec, file: Option<Str>): Result<UserConfig, StorageError> {
    match LoadConfig(c, file)
    case Err(e) => Err(e)
    case Ok(None) => Ok(NEW_CONFIG)
    case Ok(Some(config)) => Ok(config)
  }

  /** `save_config_to_source`: the owner changes only after the contents are written. */
  function Save(c: Codec, file: Option<Str>, config: UserConfig, owner: Owner)
    : (Option<Str>, Result<(), StorageError>)
  {
    match c.toJson(config)
    case None => (file, Err(JsonError))
    case Some(text) => (Some(text), if owner.Refused? then Err(IoError) else Ok(()))
  }

  // ----- authentication data

  /** The loop of `store_user_auth_data`. */
  function SerializeSecondaries(c: Codec, auth: seq<SecondaryAuth>): Option<seq<SecondaryAuthItem>> {
    if auth == [] then Some([])
    else
      var last := auth[|auth| - 1];
      var before := SerializeSecondaries(c, auth[..|auth| - 1]);
      if before.None? then None
      else match c.encodeSecondary(last.data.password)
        case None => None
        case Some(octets) =>
          Some(before.value + [SecondaryAuthItem(last.name, last.creationDate, 0, c.toBase64(octets))])
  }

  function Serialize(c: Codec, keys: Keys): Result<AuthDataSerialized, StorageError> {
    if keys.main.Some? && c.encodeMain(keys.main.value).None? then Err(SerializationError)
    else
      var main := if keys.main.None? then None else Some(c.toBase64(c.encodeMain(keys.main.value).value));
      match SerializeSecondaries(c, keys.auth)
      case None => Err(SerializationError)
      case Some(items) => Ok(AuthDataSerialized(main, items))
  }

  function DeserializeSecondary(c: Codec, item: SecondaryAuthItem): Result<SecondaryAuth, StorageError> {
    match c.fromBase64(item.password)
    case None => Err(DeserializationError)
    case Some(octets) =>
      match c.decodeSecondary(octets)
      case None => Err(SerializationError)
      case Some(password) =>
        if item.authType == 0 then Ok(SecondaryAuth(item.name, item.creationDate, Password(password)))
        else Err(DeserializationError)
  }

  /** The loop of `load_user_auth_data`: the first entry that fails decides. */
  function DeserializeSecondaries(c: Codec, items: seq<SecondaryAuthItem>): Result<seq<SecondaryAuth>, StorageError> {
    if items == [] then Ok([])
    else
      match DeserializeSecondaries(c, items[..|items| - 1])
      case Err(e) => Err(e)
      case Ok(before) =>
        match DeserializeSecondary(c, items[|items| - 1])
        case Err(e) => Err(e)
        case Ok(last) => Ok(before + [last])
  }

  function DeserializeMain(c: Codec, text: Str): Result<MainPassword, StorageError> {
    match c.fromBase64(text)
    case None => Err(DeserializationError)
    case Some(octets) =>
      match c.decodeMain(octets)
      case None => Err(SerializationError)
      case Some(m) => Ok(m)
  }

  /** What `load_user_auth_data` must answer; data without a main password counts as absent. */
  function LoadAuth(c: Codec, file: Option<Str>): Result<Option<Keys>, StorageError> {
    match LoadConfig(c, file)
    case Err(e) => Err(e)
    case Ok(None) => Ok(None)
    case Ok(Some(config)) =>
      if config.authData.None? || config.authData.value.main.None? then Ok(None)
      else match DeserializeMain(c, config.authData.value.main.value)
        case Err(e) => Err(e)
        case Ok(m) =>
          match DeserializeSecondaries(c, config.authData.value.secondary)
          case Err(e) => Err(e)
          case Ok(auth) => Ok(Some(Keys(Some(m), auth)))
  }

  function StoreAuth(c: Codec, file: Option<Str>, keys: Keys, owner: Owner): (Option<Str>, Result<(), StorageError>) {
    match Existing(c, file)
    case Err(e) => (file, Err(e))
    case Ok(config) =>
      match Serialize(c, keys)
      case Err(e) => (file, Err(e))
      case Ok(data) => Save(c, file, config.(authData := Some(data)), owner)
  }

  // ----- session command

  function LoadCommand(c: Codec, file: Option<Str>): Result<Option<Str>, StorageError> {
    match LoadConfig(c, file)
    case Err(e) => Err(e)
    case Ok(None) => Ok(None)
    case Ok(Some(config)) => Ok(config.sessionCommand)
  }

  function StoreCommand(c: Codec, file: Option<Str>, command: Str, owner: Owner)
    : (Option<Str>, Result<(), StorageError>)
  {
    match Existing(c, file)
    case Err(e) => (file, Err(e))
    case Ok(config) => Save(c, file, config.(sessionCommand := Some(command)), owner)
  }

  // ----- mount points

  function SerializeMount(dir: Str, params: MountParams): MountPointSerialized {
    MountPointSerialized(params.fstype, params.device, dir, params.flags)
  }

  function DeserializeMount(s: MountPointSerialized): MountParams {
    MountParams(s.device, s.fstype, s.args)
  }

  function SerializePremounts(list: seq<Premount>): (r: seq<MountPointSerialized>)
    ensures |r| == |list|
  {
    seq(|list|, i requires 0 <= i < |list| => SerializeMount(list[i].dir, list[i].params))
  }

  /** The list is in the order in which the map was iterated over. */
  function SerializeMounts(cfg: MountPoints, order: seq<Str>): MountPointsConfig
    requires forall dir :: dir in order ==> dir in cfg.mounts
  {
    MountPointsConfig(SerializeMount([], cfg.home), SerializePremounts(Listing(cfg, order)))
  }

  /** Inserting one by one; a repeated directory keeps its last entry. */
  function InsertAll(list: seq<MountPointSerialized>): map<Str, MountParams> {
    if list == [] then map[]
    else
      var last := list[|list| - 1];
      InsertAll(list[..|list| - 1])[last.directory := DeserializeMount(last)]
  }

  function LoadMounts(c: Codec, file: Option<Str>): Result<Option<MountPoints>, StorageError> {
    match LoadConfig(c, file)
    case Err(e) => Err(e)
    case Ok(None) => Ok(None)
    case Ok(Some(config)) =>
      if config.mountpoints.None? then Ok(None)
      else
        var m := config.mountpoints.value;
        Ok(Some(MountPoints(DeserializeMount(m.home), InsertAll(m.additional))))
  }

  /** A configuration together with the order in which a pass over its premounts meets them. */
  datatype Ordered = Ordered(cfg: MountPoints, order: seq<Str>)
  {
    ghost predicate Valid() {
      Enumerates(order, cfg.mounts)
    }
  }

  function StoreMounts(c: Codec, file: Option<Str>, mounts: Option<Ordered>, owner: Owner)
    : (Option<Str>, Result<(), StorageError>)
    requires mounts.Some? ==> mounts.value.Valid()
  {
    match Existing(c, file)
    case Err(e) => (file, Err(e))
    case Ok(config) =>
      var data := if mounts.None? then None else Some(SerializeMounts(mounts.value.cfg, mounts.value.order));
      Save(c, file, config.(mountpoints := data), owner)
  }

  /** The file on disk with its load and store operations. */
  class ConfigFile {
    const codec: Codec
    var contents: Option<Str>

    constructor (codec: Codec, contents: Option<Str>)
      ensures this.codec == codec && this.contents == contents
    {
      this.codec, this.contents := codec, contents;
    }

    method SaveConfig(config: UserConfig, owner: Owner) returns (r: Result<(), StorageError>)
      modifies this
      ensures (contents, r) == Save(codec, old(contents), config, owner)
    {
      var text := codec.toJson(config);
      if text.None? {
        return Err(JsonError);
      }
      contents := text;
      r := if owner.Refused? then Err(IoError) else Ok(());
    }

    /** `store_user_auth_data`. */
    method StoreUserAuthData(keys: UserAuthData, owner: Owner) returns (r: Result<(), StorageError>)
      modifies this
      ensures (contents, r) == StoreAuth(codec, old(contents), old(keys.View()), owner)
    {
      var existing := Existing(codec, contents);
      if existing.Err? {
        return Err(existing.error);
      }
      var main := None;
      if keys.main.Some? {
        var octets := codec.encodeMain(keys.main.value);
        if octets.None? {
          return Err(SerializationError);
        }
        main := Some(codec.toBase64(octets.value));
      }
      var items := [];
      for i := 0 to |keys.auth|
        invariant SerializeSecondaries(codec, keys.auth[..i]) == Some(items)
      {
        assert keys.auth[..i + 1][..i] == keys.auth[..i];
        var octets := codec.encodeSecondary(keys.auth[i].data.password);
        if octets.None? {
          SerializeFailureLasts(codec, keys.auth, i + 1);
          return Err(SerializationError);
        }
        items := items +
          [SecondaryAuthItem(keys.auth[i].name, keys.auth[i].creationDate, 0, codec.toBase64(octets.value))];
      }
      assert keys.auth[..|keys.auth|] == keys.auth;
      var data := AuthDataSerialized(main, items);
      r := SaveConfig(existing.value.(authData := Some(data)), owner);
    }

    /** `load_user_auth_data`. */
    method LoadUserAuthData() returns (r: Result<Option<UserAuthData>, StorageError>)
      ensures r.Err? ==> LoadAuth(codec, contents) == Err(r.error)
      ensures r == Ok(None) ==> LoadAuth(codec, contents) == Ok(None)
      ensures r.Ok? && r.value.Some? ==>
        fresh(r.value.value) && LoadAuth(codec, contents) == Ok(Some(r.value.value.View()))
    {
      var config := LoadConfig(codec, contents);
      if config.Err? {
        return Err(config.error);
      }
      if config.value.None? || config.value.value.authData.None? {
        return Ok(None);
      }
      var data := config.value.value.authData.value;
      var keys := new UserAuthData();
      if data.main.None? {
        return Ok(None);
      }
      var main := DeserializeMain(codec, data.main.value);
      if main.Err? {
        return Err(main.error);
      }
      keys.PushMain(main.value);
      for i := 0 to |data.secondary|
        invariant keys.main == Some(main.value)
        invariant DeserializeSecondaries(codec, data.secondary[..i]) == Ok(keys.auth)
      {
        assert data.secondary[..i + 1][..i] == data.secondary[..i];
        var next := DeserializeSecondary(codec, data.secondary[i]);
        if next.Err? {
          DeserializeFailureLasts(codec, data.secondary, i + 1);
          return Err(next.error);
        }
        keys.PushSecondary(next.value);
      }
      assert data.secondary[..|data.secondary|] == data.secondary;
      r := Ok(Some(keys));
    }

    /** `store_user_session_command`. */
    method StoreUserSessionCommand(command: Str, owner: Owner) returns (r: Result<(), StorageError>)
      modifies this
      ensures (contents, r) == StoreCommand(codec, old(contents), command, owner)
    {
      var existing := Existing(codec, contents);
      if existing.Err? {
        return Err(existing.error);
      }
      r := SaveConfig(existing.value.(sessionCommand := Some(command)), owner);
    }

    /** `load_user_session_command`. */
    method LoadUserSessionCommand() returns (r: Result<Option<Str>, StorageError>)
      ensures r == LoadCommand(codec, contents)
    {
      var config := LoadConfig(codec, contents);
      match config {
        case Err(e) => r := Err(e);
        case Ok(None) => r := Ok(None);
        case Ok(Some(u)) => r := Ok(u.sessionCommand);
      }
    }

    /** `store_user_mountpoints`. */
    method StoreUserMountpoints(mounts: Option<Ordered>, owner: Owner) returns (r: Result<(), StorageError>)
      requires mounts.Some? ==> mounts.value.Valid()
      modifies this
      ensures (contents, r) == StoreMounts(codec, old(contents), mounts, owner)
    {
      var existing := Existing(codec, contents);
      if existing.Err? {
        return Err(existing.error);
      }
      if mounts.None? {
        r := SaveConfig(existing.value.(mountpoints := None), owner);
        return;
      }
      var data := SerializeMounts(mounts.value.cfg, mounts.value.order);
      r := SaveConfig(existing.value.(mountpoints := Some(data)), owner);
    }

    /** `load_user_mountpoints`. */
    method LoadUserMountpoints() returns (r: Result<Option<MountPoints>, StorageError>)
      ensures r == LoadMounts(codec, contents)
    {
      var config := LoadConfig(codec, contents);
      if config.Err? {
        return Err(config.error);
      }
      if config.value.None? || config.value.value.mountpoints.None? {
        return Ok(None);
      }
      var stored := config.value.value.mountpoints.value;
      var mounts := map[];
      for i := 0 to |stored.additional|
        invariant mounts == InsertAll(stored.additional[..i])
      {
        var entry := stored.additional[i];
        assert stored.additional[..i + 1][..i] == stored.additional[..i];
        mounts := mounts[entry.directory := DeserializeMount(entry)];
      }
      assert stored.additional[..|stored.additional|] == stored.additional;
      r := Ok(Some(MountPoints(DeserializeMount(stored.home), mounts)));
    }
  }

  lemma {:induction false} SerializeFailureLasts(c: Codec, auth: seq<SecondaryAuth>, n: nat)
    requires n <= |auth| && SerializeSecondaries(c, auth[..n]).None?
    ensures SerializeSecondaries(c, auth).None?
    decreases |auth| - n
  {
    if n == |auth| {
      assert auth[..n] == auth;
    } else {
      assert auth[..n + 1][..n] == auth[..n];
      SerializeFailureLasts(c, auth, n + 1);
    }
  }

  lemma {:induction false} DeserializeFailureLasts(c: Codec, items: seq<SecondaryAuthItem>, n: nat)
    requires n <= |items| && DeserializeSecondaries(c, items[..n]).Err?
    ensures DeserializeSecondaries(c, items) == DeserializeSecondaries(c, items[..n])
    decreases |items| - n
  {
    if n == |items| {
      assert items[..n] == items;
    } else {
      assert items[..n + 1][..n] == items[..n];
      DeserializeFailureLasts(c, items, n + 1);
    }
  }

  // ----- when a store succeeds, and what it writes

  /** What a store starts from: a new configuration when there is no file, else what the file parses to. */
  ghost function Parsed(c: Codec, file: Option<Str>): Option<UserConfig> {
    if file.None? then Some(UserConfig(0, None, None, None)) else c.fromJson(file.value)
  }

  /** The configuration replaces the file if it encodes; then only a refused change of owner is an error. */
  ghost predicate Writes(
    c: Codec, file: Option<Str>, config: UserConfig, owner: Owner, r: (Option<Str>, Result<(), StorageError>))
  {
    var text := c.toJson(config);
    if text.None? then r == (file, Err(JsonError))
    else r == (text, if owner == Refused then Err(IoError) else Ok(()))
  }

  /** Storing a session command is refused for a file that does not parse, and otherwise writes the
      command next to what was there. */
  lemma StoreCommandExact(c: Codec, file: Option<Str>, command: Str, owner: Owner)
    ensures var r := StoreCommand(c, file, command, owner);
      match Parsed(c, file)
      case None => r == (file, Err(JsonError))
      case Some(before) => Writes(c, file, before.(sessionCommand := Some(command)), owner, r)
    ensures StoreCommand(c, file, command, owner).1.Ok? <==>
      && owner != Refused && Parsed(c, file).Some?
      && c.toJson(Parsed(c, file).value.(sessionCommand := Some(command))).Some?
  {
  }

  /** The serialized form of a mount: each field under its own name. */
  ghost predicate IsWritten(s: MountPointSerialized, dir: Str, params: MountParams) {
    s.directory == dir && s.device == params.device && s.fstype == params.fstype && s.args == params.flags
  }

  ghost predicate IsWrittenListing(data: MountPointsConfig, mounts: Ordered)
    requires mounts.Valid()
  {
    && IsWritten(data.home, [], mounts.cfg.home)
    && |data.additional| == |mounts.order|
    && forall i :: 0 <= i < |mounts.order| ==>
         mounts.order[i] in mounts.cfg.mounts
         && IsWritten(data.additional[i], mounts.order[i], mounts.cfg.mounts[mounts.order[i]])
  }

  /** Storing mount points is refused for a file that does not parse, and otherwise writes the home
      mount and every premount in the order met, or removes them, next to what was there. */
  lemma StoreMountsExact(c: Codec, file: Option<Str>, mounts: Option<Ordered>, owner: Owner)
    requires mounts.Some? ==> mounts.value.Valid()
    ensures var r := StoreMounts(c, file, mounts, owner);
      match Parsed(c, file)
      case None => r == (file, Err(JsonError))
      case Some(before) =>
        exists data: Option<MountPointsConfig> ::
          && data.Some? == mounts.Some?
          && (data.Some? ==> IsWrittenListing(data.value, mounts.value))
          && Writes(c, file, before.(mountpoints := data), owner, r)
  {
    if Parsed(c, file).Some? {
      var before := Parsed(c, file).value;
      var data := if mounts.None? then None else Some(SerializeMounts(mounts.value.cfg, mounts.value.order));
      assert Writes(c, file, before.(mountpoints := data), owner, StoreMounts(c, file, mounts, owner));
    }
  }

  /** Every record of the keychain can be encoded. */
  ghost predicate Encodes(c: Codec, keys: Keys) {
    && (keys.main.Some? ==> c.encodeMain(keys.main.value).Some?)
    && forall i :: 0 <= i < |keys.auth| ==> c.encodeSecondary(keys.auth[i].data.password).Some?
  }

  ghost predicate IsItem(c: Codec, item: SecondaryAuthItem, a: SecondaryAuth)
    requires c.encodeSecondary(a.data.password).Some?
  {
    && item.name == a.name && item.creationDate == a.creationDate && item.authType == 0
    && item.password == c.toBase64(c.encodeSecondary(a.data.password).value)
  }

  ghost predicate IsWrittenKeychain(c: Codec, data: AuthDataSerialized, keys: Keys)
    requires Encodes(c, keys)
  {
    && data.main ==
         (if keys.main.None? then None else Some(c.toBase64(c.encodeMain(keys.main.value).value)))
    && |data.secondary| == |keys.auth|
    && forall i :: 0 <= i < |keys.auth| ==> IsItem(c, data.secondary[i], keys.auth[i])
  }

  lemma {:induction false} SecondariesWritten(c: Codec, auth: seq<SecondaryAuth>)
    ensures var items := SerializeSecondaries(c, auth);
      && (items.Some? <==> forall i :: 0 <= i < |auth| ==> c.encodeSecondary(auth[i].data.password).Some?)
      && (items.Some? ==>
            && |items.value| == |auth|
            && forall i :: 0 <= i < |auth| ==> IsItem(c, items.value[i], auth[i]))
  {
    if auth != [] {
      var n := |auth| - 1;
      SecondariesWritten(c, auth[..n]);
      assert forall i :: 0 <= i < n ==> auth[..n][i] == auth[i];
      assert auth[n].data.password == auth[|auth| - 1].data.password;
    }
  }

  /** Storing a keychain is refused for a file that does not parse and when some record cannot be
      encoded, and otherwise writes all records in order next to what was there. */
  lemma StoreAuthExact(c: Codec, file: Option<Str>, keys: Keys, owner: Owner)
    ensures var r := StoreAuth(c, file, keys, owner);
      match Parsed(c, file)
      case None => r == (file, Err(JsonError))
      case Some(before) =>
        if !Encodes(c, keys) then r == (file, Err(SerializationError))
        else
          exists data ::
            IsWrittenKeychain(c, data, keys) && Writes(c, file, before.(authData := Some(data)), owner, r)
  {
    SecondariesWritten(c, keys.auth);
    if Parsed(c, file).Some? && Encodes(c, keys) {
      var before, data := Parsed(c, file).value, Serialize(c, keys).value;
      assert IsWrittenKeychain(c, data, keys);
      assert Writes(c, file, before.(authData := Some(data)), owner, StoreAuth(c, file, keys, owner));
    }
  }

  // ----- what a load answers

  /** Loading the session command or the mount points fails exactly for a file that does not parse.
      Of several mounts with one directory the last one counts. */
  lemma LoadsExact(c: Codec, file: Option<Str>)
    ensures Parsed(c, file).None? ==> LoadCommand(c, file) == Err(JsonError) && LoadMounts(c, file) == Err(JsonError)
    ensures Parsed(c, file).Some? ==>
      var config := Parsed(c, file).value;
      && LoadCommand(c, file) == Ok(config.sessionCommand)
      && LoadMounts(c, file).Ok?
      && (LoadMounts(c, file).value.Some? <==> config.mountpoints.Some?)
      && (config.mountpoints.Some? ==> IsRead(LoadMounts(c, file).value.value, config.mountpoints.value))
  {
    if Parsed(c, file).Some? && Parsed(c, file).value.mountpoints.Some? {
      LastInsertWins(Parsed(c, file).value.mountpoints.value.additional);
    }
  }

  ghost predicate IsRead(cfg: MountPoints, data: MountPointsConfig) {
    && cfg.home == MountParams(data.home.device, data.home.fstype, data.home.args)
    && LastWins(cfg.mounts, data.additional)
  }

  ghost predicate LastWins(m: map<Str, MountParams>, list: seq<MountPointSerialized>) {
    && (forall dir :: dir in m ==> exists i :: 0 <= i < |list| && list[i].directory == dir)
    && (forall i :: 0 <= i < |list| && IsLast(list, i) ==> Holds(m, list[i]))
  }

  /** No later mount of the list has the same directory. */
  ghost predicate IsLast(list: seq<MountPointSerialized>, i: nat)
    requires i < |list|
  {
    forall j :: i < j < |list| ==> list[j].directory != list[i].directory
  }

  ghost predicate Holds(m: map<Str, MountParams>, s: MountPointSerialized) {
    s.directory in m && m[s.directory] == MountParams(s.device, s.fstype, s.args)
  }

  lemma {:induction false} LastInsertWins(list: seq<MountPointSerialized>)
    ensures LastWins(InsertAll(list), list)
  {
    if list != [] {
      var n := |list| - 1;
      LastInsertWins(list[..n]);
      assert InsertAll(list) == InsertAll(list[..n])[list[n].directory := DeserializeMount(list[n])];
      LastWinsInsert(InsertAll(list[..n]), list);
    }
  }

  lemma LastWinsInsert(m: map<Str, MountParams>, list: seq<MountPointSerialized>)
    requires list != [] && LastWins(m, list[..|list| - 1])
    ensures var last := list[|list| - 1]; LastWins(m[last.directory := DeserializeMount(last)], list)
  {
    var n := |list| - 1;
    forall dir | dir in m ensures exists i :: 0 <= i < |list| && list[i].directory == dir {
      var i :| 0 <= i < n && list[..n][i].directory == dir;
      assert list[i].directory == dir;
    }
    forall i | 0 <= i < n && IsLast(list, i) ensures Holds(m, list[i]) && list[n].directory != list[i].directory {
      assert list[..n][i] == list[i];
      assert IsLast(list[..n], i);
    }
  }

  /** What is wrong with a stored secondary, if anything: text that is not base64, octets that do not
      decode, an unknown type of authentication, in this order. */
  ghost function Flaw(c: Codec, item: SecondaryAuthItem): Option<StorageError> {
    if c.fromBase64(item.password).None? then Some(DeserializationError)
    else if c.decodeSecondary(c.fromBase64(item.password).value).None? then Some(SerializationError)
    else if item.authType != 0 then Some(DeserializationError)
    else None
  }

  ghost predicate IsReadItem(c: Codec, a: SecondaryAuth, item: SecondaryAuthItem)
    requires Flaw(c, item).None?
  {
    && a.name == item.name && a.creationDate == item.creationDate
    && Some(a.data.password) == c.decodeSecondary(c.fromBase64(item.password).value)
  }

  /** Either all items are sound and are read in order, or the first flaw is the error. */
  ghost predicate IsReadList(c: Codec, r: Result<seq<SecondaryAuth>, StorageError>, items: seq<SecondaryAuthItem>) {
    match r
    case Ok(auth) =>
      && |auth| == |items|
      && forall i :: 0 <= i < |items| ==> Flaw(c, items[i]).None? && IsReadItem(c, auth[i], items[i])
    case Err(e) =>
      exists i :: 0 <= i < |items| && Flaw(c, items[i]) == Some(e)
                  && forall j :: 0 <= j < i ==> Flaw(c, items[j]).None?
  }

  lemma {:induction false} SecondariesRead(c: Codec, items: seq<SecondaryAuthItem>)
    ensures IsReadList(c, DeserializeSecondaries(c, items), items)
  {
    if items != [] {
      var n := |items| - 1;
      var before, r := DeserializeSecondaries(c, items[..n]), DeserializeSecondaries(c, items);
      SecondariesRead(c, items[..n]);
      assert forall i :: 0 <= i < n ==> items[..n][i] == items[i];
      if before.Ok? && r.Err? {
        assert Flaw(c, items[n]) == Some(r.error);
      }
    }
  }

  /** Loading a keychain: a file that does not parse is refused, data without a main password is
      absent, a bad main record is the error, and then the first bad secondary is. */
  lemma LoadAuthExact(c: Codec, file: Option<Str>)
    ensures var r := LoadAuth(c, file);
      match Parsed(c, file)
      case None => r == Err(JsonError)
      case Some(config) =>
        if config.authData.None? || config.authData.value.main.None? then r == Ok(None)
        else
          var octets := c.fromBase64(config.authData.value.main.value);
          if octets.None? then r == Err(DeserializationError)
          else if c.decodeMain(octets.value).None? then r == Err(SerializationError)
          else
            exists auth ::
              && IsReadList(c, auth, config.authData.value.secondary)
              && r == (if auth.Err? then Err(auth.error) else Ok(Some(Keys(c.decodeMain(octets.value), auth.value))))
  {
    if Parsed(c, file).Some? && Parsed(c, file).value.authData.Some? {
      var items := Parsed(c, file).value.authData.value.secondary;
      SecondariesRead(c, items);
      assert IsReadList(c, DeserializeSecondaries(c, items), items);
    }
  }

  // ----- round trips

  lemma {:induction false} SecondariesRoundTrip(c: Codec, auth: seq<SecondaryAuth>)
    requires Lawful(c) && SerializeSecondaries(c, auth).Some?
    ensures DeserializeSecondaries(c, SerializeSecondaries(c, auth).value) == Ok(auth)
  {
    if auth != [] {
      var n := |auth| - 1;
      SecondariesRoundTrip(c, auth[..n]);
      var items := SerializeSecondaries(c, auth).value;
      var octets := c.encodeSecondary(auth[n].data.password).value;
      assert c.fromBase64(c.toBase64(octets)) == Some(octets);
      assert items[..|items| - 1] == SerializeSecondaries(c, auth[..n]).value;
      assert auth == auth[..n] + [auth[n]];
    }
  }

  /** A stored keychain reloads unchanged, with all its secondaries in order, exactly when it has a
      main password; without one it reads as absent. */
  lemma AuthRoundTrip(c: Codec, file: Option<Str>, keys: Keys, owner: Owner)
    requires Lawful(c) && StoreAuth(c, file, keys, owner).1.Ok?
    ensures var file' := StoreAuth(c, file, keys, owner).0;
      LoadAuth(c, file') == Ok(if keys.main.Some? then Some(keys) else None)
  {
    SecondariesRoundTrip(c, keys.auth);
    if keys.main.Some? {
      var octets := c.encodeMain(keys.main.value).value;
      assert c.fromBase64(c.toBase64(octets)) == Some(octets);
    }
  }

  /** A login answers the same before storing and after reloading, for every input. */
  lemma LoginSurvivesStorage(c: Codec, file: Option<Str>, keys: Keys, owner: Owner, provided: Option<Str>)
    requires Lawful(c) && StoreAuth(c, file, keys, owner).1.Ok?
    ensures var reloaded := LoadAuth(c, StoreAuth(c, file, keys, owner).0);
      && reloaded.Ok?
      && Login(if reloaded.value.Some? then reloaded.value.value else NO_KEYS, provided) == Login(keys, provided)
  {
    AuthRoundTrip(c, file, keys, owner);
  }

  /** Re-inserting a listing entry by entry rebuilds the part of the map it lists. */
  lemma {:induction false} InsertAllRebuilds(cfg: MountPoints, order: seq<Str>)
    requires forall dir :: dir in order ==> dir in cfg.mounts
    ensures InsertAll(SerializePremounts(Listing(cfg, order)))
      == map dir | dir in order :: cfg.mounts[dir]
  {
    if order != [] {
      var n := |order| - 1;
      InsertAllRebuilds(cfg, order[..n]);
      var list := SerializePremounts(Listing(cfg, order));
      assert list[..n] == SerializePremounts(Listing(cfg, order[..n]));
      assert order == order[..n] + [order[n]];
      assert DeserializeMount(list[n]) == cfg.mounts[order[n]];
    }
  }

  /** A stored mount configuration reloads unchanged, whatever order its premounts were listed in. */
  lemma MountsRoundTrip(c: Codec, file: Option<Str>, mounts: Option<Ordered>, owner: Owner)
    requires Lawful(c) && (mounts.Some? ==> mounts.value.Valid())
    requires StoreMounts(c, file, mounts, owner).1.Ok?
    ensures LoadMounts(c, StoreMounts(c, file, mounts, owner).0)
      == Ok(if mounts.Some? then Some(mounts.value.cfg) else None)
  {
    if mounts.Some? {
      var cfg, order := mounts.value.cfg, mounts.value.order;
      InsertAllRebuilds(cfg, order);
      assert (map dir | dir in order :: cfg.mounts[dir]) == cfg.mounts;
    }
  }

  lemma CommandRoundTrip(c: Codec, file: Option<Str>, command: Str, owner: Owner)
    requires Lawful(c) && StoreCommand(c, file, command, owner).1.Ok?
    ensures LoadCommand(c, StoreCommand(c, file, command, owner).0) == Ok(Some(command))
  {
  }

  // ----- independence

  /** One of the three stores. */
  datatype Store =
    | OfAuth(keys: Keys)
    | OfCommand(command: Str)
    | OfMounts(mounts: Option<Ordered>)
  {
    ghost predicate Valid() {
      OfMounts? && mounts.Some? ==> mounts.value.Valid()
    }
  }

  ghost function Perform(c: Codec, file: Option<Str>, s: Store, owner: Owner): (Option<Str>, Result<(), StorageError>)
    requires s.Valid()
  {
    match s
    case OfAuth(keys) => StoreAuth(c, file, keys, owner)
    case OfCommand(command) => StoreCommand(c, file, command, owner)
    case OfMounts(mounts) => StoreMounts(c, file, mounts, owner)
  }

  /** A store leaves what the other two loads answer as it was, whether it succeeds or fails. */
  lemma StoresAreIndependent(c: Codec, file: Option<Str>, s: Store, owner: Owner)
    requires Lawful(c) && s.Valid()
    ensures var file' := Perform(c, file, s, owner).0;
      && (!s.OfAuth? ==> LoadAuth(c, file') == LoadAuth(c, file))
      && (!s.OfCommand? ==> LoadCommand(c, file') == LoadCommand(c, file))
      && (!s.OfMounts? ==> LoadMounts(c, file') == LoadMounts(c, file))
  {
  }

  /** When a store of any kind fails: the file does not parse, a record or the configuration cannot be
      encoded, or the change of owner is refused, and nothing else. A failed store leaves the file
      alone, except that a refused change of owner comes too late: the contents are written by then. */
  lemma FailedStoreExactly(c: Codec, file: Option<Str>, s: Store, owner: Owner)
    requires s.Valid()
    ensures var (file', r) := Perform(c, file, s, owner);
      var encodes := s.OfAuth? ==> Encodes(c, s.keys);
      && (r == Err(SerializationError) <==> Parsed(c, file).Some? && !encodes)
      && (r == Err(JsonError) <==>
            || Parsed(c, file).None?
            || (encodes && c.toJson(Changed(c, Parsed(c, file).value, s).value).None?))
      && (r == Err(IoError) <==> owner == Refused && Perform(c, file, s, Keep).1.Ok?)
      && (r.Err? ==> r.error in {SerializationError, JsonError, IoError})
      && (r == Err(IoError) ==> (file', Result.Ok(())) == Perform(c, file, s, Keep))
      && (r.Err? && r != Err(IoError) ==> file' == file)
  {
    if s.OfAuth? {
      SecondariesWritten(c, s.keys.auth);
    }
  }

  /** Two stores of different kinds commute. */
  lemma StoresCommute(c: Codec, file: Option<Str>, s: Store, t: Store)
    requires Lawful(c) && s.Valid() && t.Valid()
    requires s.OfAuth? != t.OfAuth? || s.OfCommand? != t.OfCommand?
    requires Perform(c, file, s, Keep).1.Ok? && Perform(c, file, t, Keep).1.Ok?
    ensures Perform(c, Perform(c, file, s, Keep).0, t, Keep).1 == Perform(c, Perform(c, file, t, Keep).0, s, Keep).1
    ensures Perform(c, Perform(c, file, s, Keep).0, t, Keep).1.Ok? ==>
      Perform(c, Perform(c, file, s, Keep).0, t, Keep).0 == Perform(c, Perform(c, file, t, Keep).0, s, Keep).0
  {
    var config := Existing(c, file).value;
    var fileS, fileT := Perform(c, file, s, Keep).0, Perform(c, file, t, Keep).0;
    assert Existing(c, fileS) == Ok(Changed(c, config, s).value);
    assert Existing(c, fileT) == Ok(Changed(c, config, t).value);
  }

  /** The configuration a store saves. */
  ghost function Changed(c: Codec, config: UserConfig, s: Store): Result<UserConfig, StorageError>
    requires s.Valid()
  {
    match s
    case OfAuth(keys) =>
      (match Serialize(c, keys)
       case Err(e) => Err(e)
       case Ok(data) => Ok(config.(authData := Some(data))))
    case OfCommand(command) => Ok(config.(sessionCommand := Some(command)))
    case OfMounts(mounts) =>
      var data := if mounts.None? then None else Some(SerializeMounts(mounts.value.cfg, mounts.value.order));
      Ok(config.(mountpoints := data))
  }
}
