/**
  The import of a wallet from extension storage: the legacy Crypto Wallets password and the scan of the
  decrypted keyrings for a mnemonic. The cryptography, Base64 and the JSON parser are parameters.
 */
module WalletImport {
  import opened Prelude
  import opened Utf8

  type Bytes = seq<Byte>

  datatype Json =
    | Null
    | Bool(b: bool)
    | Int(i: int)
    | Double(d: real)
    | Str(s: Bytes)
    | List(items: seq<Json>)
    | Dict(fields: map<string, Json>)

  type Fields = map<string, Json>

  /** base::Value::Dict::FindByDottedPath, the path already split at its dots. */
  function Find(d: Fields, path: seq<string>): Option<Json>
    requires path != []
    decreases |path|
  {
    if path[0] !in d then None
    else if |path| == 1 then Some(d[path[0]])
    else if d[path[0]].Dict? then Find(d[path[0]].fields, path[1..])
    else None
  }

  function FindInt(d: Fields, path: seq<string>): Option<int>
    requires path != []
  {
    match Find(d, path)
    case Some(Int(i)) => Some(i)
    case _ => None
  }

  function FindStr(d: Fields, path: seq<string>): Option<Bytes>
    requires path != []
  {
    match Find(d, path)
    case Some(Str(s)) => Some(s)
    case _ => None
  }

  function FindList(d: Fields, path: seq<string>): Option<seq<Json>>
    requires path != []
  {
    match Find(d, path)
    case Some(List(items)) => Some(items)
    case _ => None
  }

  const ARGON_PARAMS := ["data", "KeyringController", "argonParams"]
  const SALT := ["data", "KeyringController", "salt"]
  const VAULT := ["data", "KeyringController", "vault"]

  /** The bytes of a text without characters beyond U+00FF. */
  function Latin(text: string): Bytes {
    seq(|text|, k requires 0 <= k < |text| => (text[k] as int) % 0x100)
  }

  const HD_KEY_TREE: Bytes := Latin("HD Key Tree")

  predicate HasField(d: Fields, key: string, v: Json) {
    key in d && d[key] == v
  }

  /** The value stands under `inner` in the dictionary that stands under `outer`. */
  ghost predicate HasNested(d: Fields, outer: string, inner: string, v: Json) {
    exists middle :: HasField(d, outer, Dict(middle)) && HasField(middle, inner, v)
  }

  /** The storage has the value among the data of the keyring controller. */
  ghost predicate HasKeyringField(storage: Fields, key: string, v: Json) {
    exists data :: HasField(storage, "data", Dict(data)) && HasNested(data, "KeyringController", key, v)
  }

  lemma FindNested(d: Fields, outer: string, inner: string, v: Json)
    ensures Find(d, [outer, inner]) == Some(v) <==> HasNested(d, outer, inner, v)
  {
    assert [outer, inner][1..] == [inner];
    if outer in d && d[outer].Dict? {
      assert Find(d[outer].fields, [inner]) == if inner in d[outer].fields then Some(d[outer].fields[inner]) else None;
    }
    if Find(d, [outer, inner]) == Some(v) {
      assert HasField(d, outer, Dict(d[outer].fields)) && HasField(d[outer].fields, inner, v);
    }
  }

  lemma FindKeyringField(storage: Fields, key: string, v: Json)
    ensures Find(storage, ["data", "KeyringController", key]) == Some(v) <==> HasKeyringField(storage, key, v)
  {
    var rest := ["KeyringController", key];
    assert ["data", "KeyringController", key][1..] == rest;
    if "data" in storage && storage["data"].Dict? {
      FindNested(storage["data"].fields, "KeyringController", key, v);
      assert HasField(storage, "data", Dict(storage["data"].fields));
    }
  }

  datatype Library = Library(
    argon2: (int, int, int, Bytes, Bytes) -> Option<Bytes>,  // time, mem, hashLen, password, salt
    hkdf: (Bytes, int) -> Option<Bytes>,
    parse: Bytes -> Option<Json>,
    base64: Bytes -> Option<Bytes>,
    decrypt: (Bytes, Bytes, Bytes, Bytes) -> Option<Bytes>)  // password, salt, data, iv
  {
    /** HKDF fills the buffer it is given. */
    ghost predicate FillsBuffer() {
      forall k, n :: hkdf(k, n).Some? ==> |hkdf(k, n).value| == n
    }
  }

  // ---------------------------------------------------------------- the legacy password

  datatype LegacyInputs = LegacyInputs(hashLen: int, mem: int, time: int, salt: Bytes)

  /** Everything the derivation needs, present and of the right kind. */
  function FindLegacyInputs(storage: Fields): Option<LegacyInputs> {
    match Find(storage, ARGON_PARAMS)
    case Some(Dict(p)) =>
      (match (FindInt(p, ["hashLen"]), FindInt(p, ["mem"]), FindInt(p, ["time"]), FindStr(storage, SALT))
       case (Some(hashLen), Some(mem), Some(time), Some(salt)) =>
         if FindInt(p, ["type"]) == Some(2) then Some(LegacyInputs(hashLen, mem, time, salt)) else None
       case _ => None)
    case _ => None
  }

  /** As many bytes of the salt as it has decodable characters, all of them inside it. */
  function CountedPrefix(salt: Bytes): (prefix: Bytes)
    ensures prefix <= salt && |prefix| == Decodable(Decode(salt))
  {
    DecodableBounded(salt);
    salt[..Decodable(Decode(salt))]
  }

  /** The inputs are found exactly when each of them is there, of its kind, and the type is Argon2id's 2. */
  lemma LegacyInputsExactly(storage: Fields, inputs: LegacyInputs)
    ensures FindLegacyInputs(storage) == Some(inputs) <==>
            HasLegacyInputs(storage, inputs)
  {
    FindKeyringField(storage, "salt", Str(inputs.salt));
    forall p
      ensures HasKeyringField(storage, "argonParams", Dict(p)) <==> Find(storage, ARGON_PARAMS) == Some(Dict(p))
    {
      FindKeyringField(storage, "argonParams", Dict(p));
    }
    if FindLegacyInputs(storage) == Some(inputs) {
      assert IsArgonParams(storage, Find(storage, ARGON_PARAMS).value.fields, inputs);
    }
  }

  ghost predicate HasLegacyInputs(storage: Fields, inputs: LegacyInputs) {
    && HasKeyringField(storage, "salt", Str(inputs.salt))
    && exists p :: IsArgonParams(storage, p, inputs)
  }

  ghost predicate IsArgonParams(storage: Fields, p: Fields, inputs: LegacyInputs) {
    && HasKeyringField(storage, "argonParams", Dict(p))
    && HasField(p, "hashLen", Int(inputs.hashLen))
    && HasField(p, "mem", Int(inputs.mem))
    && HasField(p, "time", Int(inputs.time))
    && HasField(p, "type", Int(2))
  }

  /** The key that argon2 and HKDF derive, argon2 reading the counted prefix of the salt. */
  function SubKey(password: Bytes, inputs: LegacyInputs, lib: Library): Option<Bytes> {
    match lib.argon2(inputs.time, inputs.mem, inputs.hashLen, password, CountedPrefix(inputs.salt))
    case None => None
    case Some(masterKey) => lib.hkdf(masterKey, inputs.hashLen)
  }

  /** A negative hashLen makes the std::vector constructor fail, which ends the process. */
  datatype Legacy = Aborted | Password(p: Bytes)

  function LegacyPassword(password: Bytes, storage: Fields, lib: Library): Legacy {
    DerivedPassword(password, FindLegacyInputs(storage), lib)
  }

  function DerivedPassword(password: Bytes, found: Option<LegacyInputs>, lib: Library): Legacy {
    match found
    case None => Password([])
    case Some(inputs) =>
      if inputs.hashLen < 0 then Aborted
      else match SubKey(password, inputs, lib)
        case None => Password([])
        case Some(key) => Password(Repair(key))
  }

  /** The parameters are looked up one after another, each failure ending the derivation. */
  method ReadLegacyInputs(storage: Fields) returns (r: Option<LegacyInputs>)
    ensures r == FindLegacyInputs(storage)
  {
    var params := Find(storage, ARGON_PARAMS);
    if params.None? || !params.value.Dict? {
      return None;
    }
    var argonParams := params.value.fields;
    var hashLen := FindInt(argonParams, ["hashLen"]);
    var mem := FindInt(argonParams, ["mem"]);
    var time := FindInt(argonParams, ["time"]);
    var kind := FindInt(argonParams, ["type"]);
    if hashLen.None? || mem.None? || time.None? {
      return None;
    }
    if kind != Some(2) {
      return None;
    }
    var salt := FindStr(storage, SALT);
    if salt.None? {
      return None;
    }
    r := Some(LegacyInputs(hashLen.value, mem.value, time.value, salt.value));
  }

  method GetLegacyCryptoWalletsPassword(password: Bytes, storage: Fields, lib: Library) returns (r: Legacy)
    ensures r == LegacyPassword(password, storage, lib)
  {
    var inputs := ReadLegacyInputs(storage);
    if inputs.None? {
      return Password([]);
    }
    var LegacyInputs(hashLen, mem, time, salt) := inputs.value;
    var count := CountCharacters(salt);
    if hashLen < 0 {
      return Aborted;
    }
    assert salt[..count] == CountedPrefix(salt);
    var masterKey := lib.argon2(time, mem, hashLen, password, salt[..count]);
    if masterKey.None? {
      return Password([]);
    }
    var subKey := lib.hkdf(masterKey.value, hashLen);
    if subKey.None? {
      return Password([]);
    }
    var repaired := RepairKey(subKey.value);
    r := Password(repaired);
  }

  /**
    A derived password is well-formed text of hashLen to 3 * hashLen bytes, and none is derived exactly when
    an input is missing, a derivation fails or hashLen is zero.
   */
  lemma LegacyPasswordShape(password: Bytes, found: Option<LegacyInputs>, lib: Library)
    requires lib.FillsBuffer()
    ensures var r := DerivedPassword(password, found, lib);
            && (r.Aborted? <==> found.Some? && found.value.hashLen < 0)
            && (r == Password([]) <==>
                found.None?
                || (found.value.hashLen >= 0 && SubKey(password, found.value, lib).None?)
                || found.value.hashLen == 0)
            && (r.Password? && r.p != [] ==>
                WellFormed(r.p) && found.value.hashLen <= |r.p| <= 3 * found.value.hashLen)
  {
    if found.Some? && found.value.hashLen >= 0 && SubKey(password, found.value, lib).Some? {
      var key := SubKey(password, found.value, lib).value;
      RepairCorrect(key);
      RepairLength(key);
      var LegacyInputs(hashLen, mem, time, salt) := found.value;
      var masterKey := lib.argon2(time, mem, hashLen, password, CountedPrefix(salt)).value;
      assert lib.hkdf(masterKey, hashLen) == Some(key);
    }
  }

  /** Argon2 is given only as many bytes of the salt as it has characters, and HKDF what argon2 makes of them. */
  ghost predicate IsKey(inputs: LegacyInputs, password: Bytes, lib: Library, key: Bytes) {
    exists salt, masterKey ::
      && salt <= inputs.salt && |salt| == Decodable(Decode(inputs.salt))
      && lib.argon2(inputs.time, inputs.mem, inputs.hashLen, password, salt) == Some(masterKey)
      && lib.hkdf(masterKey, inputs.hashLen) == Some(key)
  }

  lemma SubKeyExactly(inputs: LegacyInputs, password: Bytes, lib: Library, key: Bytes)
    ensures SubKey(password, inputs, lib) == Some(key) <==> IsKey(inputs, password, lib, key)
  {
    var salt := CountedPrefix(inputs.salt);
    if SubKey(password, inputs, lib) == Some(key) {
      var masterKey := lib.argon2(inputs.time, inputs.mem, inputs.hashLen, password, salt).value;
      assert lib.hkdf(masterKey, inputs.hashLen) == Some(key);
    }
    assert forall other: Bytes :: other <= inputs.salt && |other| == |salt| ==> other == salt;
  }

  /** The repair of the key that the stored inputs give. */
  ghost predicate IsDerived(storage: Fields, password: Bytes, lib: Library, derived: Bytes) {
    exists inputs, key ::
      && HasLegacyInputs(storage, inputs) && inputs.hashLen >= 0
      && IsKey(inputs, password, lib, key) && derived == Repair(key)
  }

  lemma DerivedExactly(storage: Fields, password: Bytes, lib: Library, derived: Bytes)
    requires derived != []
    ensures LegacyPassword(password, storage, lib) == Password(derived) <==>
            IsDerived(storage, password, lib, derived)
  {
    var found := FindLegacyInputs(storage);
    if LegacyPassword(password, storage, lib) == Password(derived) {
      LegacyInputsExactly(storage, found.value);
      SubKeyExactly(found.value, password, lib, SubKey(password, found.value, lib).value);
    }
    forall inputs, key | HasLegacyInputs(storage, inputs) && IsKey(inputs, password, lib, key)
      ensures found == Some(inputs) && SubKey(password, inputs, lib) == Some(key)
    {
      LegacyInputsExactly(storage, inputs);
      SubKeyExactly(inputs, password, lib, key);
    }
  }

  // ---------------------------------------------------------------- the keyring scan

  datatype ImportError = NoError | JsonError | PasswordError | InternalError
  datatype ImportInfo = ImportInfo(mnemonic: Bytes, isLegacy: bool, numberOfAccounts: nat)
  datatype Answer = Answer(success: bool, info: ImportInfo, error: ImportError)

  /** Crash: a member of a JSON value is read that has another type than the code takes for granted. */
  datatype Outcome = Crash | Reply(answer: Answer)

  function Failed(error: ImportError): Answer {
    Answer(false, ImportInfo([], false, 0), error)
  }

  /** static_cast<size_t>(int) on a 64-bit platform. */
  function SizeT(n: int): nat {
    n % 0x1_0000_0000_0000_0000
  }

  /** The bytes of the longest prefix of integers, each truncated to uint8_t. */
  function LeadingBytes(items: seq<Json>): Bytes {
    if items == [] || !items[0].Int? then [] else [items[0].i % 0x100] + LeadingBytes(items[1..])
  }

  function Mnemonic(keyring: Fields): Option<Bytes> {
    match (FindStr(keyring, ["data", "mnemonic"]), FindList(keyring, ["data", "mnemonic"]))
    case (Some(s), _) => Some(s)
    case (None, Some(items)) => if LeadingBytes(items) == [] then None else Some(LeadingBytes(items))
    case (None, None) => None
  }

  /** The scan stops at an entry that is no dictionary, has no type, or is an HD key tree. */
  predicate Decisive(entry: Json) {
    entry.Dict? ==> FindStr(entry.fields, ["type"]) in {None, Some(HD_KEY_TREE)}
  }

  function FromKeyring(entry: Json, isLegacy: bool): Outcome {
    if !entry.Dict? then Crash
    else if FindStr(entry.fields, ["type"]).None? then Reply(Failed(JsonError))
    else match Mnemonic(entry.fields)
      case None => Reply(Failed(JsonError))
      case Some(m) =>
        var accounts := FindInt(entry.fields, ["data", "numberOfAccounts"]);
        Reply(Answer(true, ImportInfo(m, isLegacy, if accounts.Some? then SizeT(accounts.value) else 1), NoError))
  }

  function FromKeyrings(entries: seq<Json>, isLegacy: bool): Outcome {
    if entries == [] then Reply(Failed(JsonError))
    else if Decisive(entries[0]) then FromKeyring(entries[0], isLegacy)
    else FromKeyrings(entries[1..], isLegacy)
  }

  lemma {:induction false} LeadingBytesLongest(items: seq<Json>)
    ensures var n := |LeadingBytes(items)|;
            && n <= |items|
            && (forall k :: 0 <= k < n ==> items[k].Int? && LeadingBytes(items)[k] == items[k].i % 0x100)
            && (n == |items| || !items[n].Int?)
  {
    if items != [] && items[0].Int? {
      LeadingBytesLongest(items[1..]);
    }
  }

  /** Only the first decisive entry matters: neither what precedes nor what follows it changes the outcome. */
  lemma {:induction false} FirstDecisiveDecides(before: seq<Json>, entry: Json, after: seq<Json>, isLegacy: bool)
    requires Decisive(entry) && forall e :: e in before ==> !Decisive(e)
    ensures FromKeyrings(before + [entry] + after, isLegacy) == FromKeyring(entry, isLegacy)
  {
    var all := before + [entry] + after;
    if before != [] {
      assert all[0] == before[0] && all[1..] == before[1..] + [entry] + after;
      FirstDecisiveDecides(before[1..], entry, after, isLegacy);
    }
  }

  // ---------------------------------------------------------------- the whole decision

  datatype Stage = Stopped(error: ImportError) | Decrypted(keyrings: Json)

  /** From storage to the parsed keyrings. */
  function OpenVault(storage: Fields, password: Bytes, lib: Library): Stage {
    match FindStr(storage, VAULT)
    case None => Stopped(JsonError)
    case Some(text) =>
      match lib.parse(text)
      case Some(Dict(vault)) =>
        (match (FindStr(vault, ["data"]), FindStr(vault, ["iv"]), FindStr(vault, ["salt"]))
         case (Some(data), Some(iv), Some(salt)) =>
           (match (lib.base64(data), lib.base64(iv), lib.base64(salt))
            case (Some(d), Some(i), Some(s)) =>
              (match lib.decrypt(password, s, d, i)
               case None => Stopped(PasswordError)
               case Some(plain) =>
                 match lib.parse(plain)
                 case None => Stopped(JsonError)
                 case Some(keyrings) => Decrypted(keyrings))
            case _ => Stopped(JsonError))
         case _ => Stopped(JsonError))
      case _ => Stopped(JsonError)
  }

  /** The vault text is a JSON dictionary whose three strings decode to these bytes. */
  ghost predicate IsCiphertext(storage: Fields, lib: Library, data: Bytes, iv: Bytes, salt: Bytes) {
    exists text, vault ::
      && HasKeyringField(storage, "vault", Str(text)) && lib.parse(text) == Some(Dict(vault))
      && DecodesTo(vault, "data", data, lib)
      && DecodesTo(vault, "iv", iv, lib)
      && DecodesTo(vault, "salt", salt, lib)
  }

  ghost predicate DecodesTo(vault: Fields, key: string, bytes: Bytes, lib: Library) {
    key in vault && vault[key].Str? && lib.base64(vault[key].s) == Some(bytes)
  }

  /** The vault holds ciphertext, and the password decrypts it to this. */
  ghost predicate DecryptsTo(storage: Fields, password: Bytes, lib: Library, plain: Option<Bytes>) {
    exists data, iv, salt ::
      IsCiphertext(storage, lib, data, iv, salt) && lib.decrypt(password, salt, data, iv) == plain
  }

  /**
    The vault opens to `keyrings` exactly when it holds ciphertext that decrypts to JSON text for them; the
    password is blamed exactly when it holds ciphertext that does not decrypt; every other failure is the
    JSON's.
   */
  lemma OpenVaultExactly(storage: Fields, password: Bytes, lib: Library)
    ensures forall keyrings :: OpenVault(storage, password, lib) == Decrypted(keyrings) <==>
              exists plain :: DecryptsTo(storage, password, lib, Some(plain)) && lib.parse(plain) == Some(keyrings)
    ensures OpenVault(storage, password, lib) == Stopped(PasswordError) <==> DecryptsTo(storage, password, lib, None)
    ensures OpenVault(storage, password, lib).Stopped? ==>
              OpenVault(storage, password, lib).error in {JsonError, PasswordError}
  {
    CiphertextFound(storage, lib);
  }

  /** The stored ciphertext is what the lookups find. */
  lemma CiphertextFound(storage: Fields, lib: Library)
    ensures forall data, iv, salt :: IsCiphertext(storage, lib, data, iv, salt) <==>
              && FindStr(storage, VAULT).Some?
              && var vault := lib.parse(FindStr(storage, VAULT).value);
                 && vault.Some? && vault.value.Dict?
                 && DecodesTo(vault.value.fields, "data", data, lib)
                 && DecodesTo(vault.value.fields, "iv", iv, lib)
                 && DecodesTo(vault.value.fields, "salt", salt, lib)
  {
    forall text ensures HasKeyringField(storage, "vault", Str(text)) <==> FindStr(storage, VAULT) == Some(text) {
      FindKeyringField(storage, "vault", Str(text));
    }
  }

  function FromStorage(storage: Fields, isLegacy: bool, password: Bytes, lib: Library): Outcome {
    if password == [] then Reply(Failed(InternalError))
    else match OpenVault(storage, password, lib)
      case Stopped(e) => Reply(Failed(e))
      case Decrypted(List(entries)) => FromKeyrings(entries, isLegacy)
      case Decrypted(_) => Crash
  }

  /** The password handed to GetMnemonic, derived when the storage holds argon2 parameters. */
  function VaultPassword(storage: Fields, password: Bytes, lib: Library): Legacy {
    if IsLegacy(storage) then LegacyPassword(password, storage, lib) else Password(password)
  }

  predicate IsLegacy(storage: Fields) {
    Find(storage, ARGON_PARAMS).Some?
  }

  function ImportOutcome(storage: Option<Fields>, password: Bytes, lib: Library): Outcome {
    if storage.None? then Reply(Failed(InternalError))
    else if password == [] then Reply(Failed(PasswordError))
    else match VaultPassword(storage.value, password, lib)
      case Aborted => Crash
      case Password(p) => FromStorage(storage.value, IsLegacy(storage.value), p, lib)
  }

  /** A base::OnceCallback, with the record of its runs. */
  class Callback {
    var runs: seq<Answer>

    method Run(success: bool, info: ImportInfo, error: ImportError)
      modifies this
      ensures runs == old(runs) + [Answer(success, info, error)]
    {
      runs := runs + [Answer(success, info, error)];
    }
  }

  function Runs(o: Outcome): seq<Answer> {
    match o
    case Crash => []
    case Reply(a) => [a]
  }

  class ExternalWalletsImporter {
    var storageData: Option<Fields>

    method OnGetLocalStorage(dict: Fields)
      modifies this
      ensures storageData == Some(dict)
    {
      storageData := Some(dict);
    }

    /** The callback is run once with the decided answer, or never when the process ends first. */
    method GetImportInfo(password: Bytes, callback: Callback, lib: Library) returns (crashed: bool)
      modifies callback
      ensures var outcome := ImportOutcome(storageData, password, lib);
              crashed == outcome.Crash? && callback.runs == old(callback.runs) + Runs(outcome)
    {
      if storageData.None? {
        callback.Run(false, ImportInfo([], false, 0), InternalError);
        return false;
      }
      if password == [] {
        callback.Run(false, ImportInfo([], false, 0), PasswordError);
        return false;
      }
      if IsLegacy(storageData.value) {
        var legacy := GetLegacyCryptoWalletsPassword(password, storageData.value, lib);
        if legacy.Aborted? {
          return true;
        }
        crashed := GetMnemonic(true, callback, legacy.p, lib);
      } else {
        crashed := GetMnemonic(false, callback, password, lib);
      }
    }

    method GetMnemonic(isLegacy: bool, callback: Callback, password: Bytes, lib: Library) returns (crashed: bool)
      requires storageData.Some?
      modifies callback
      ensures var outcome := FromStorage(storageData.value, isLegacy, password, lib);
              crashed == outcome.Crash? && callback.runs == old(callback.runs) + Runs(outcome)
    {
      if password == [] {
        callback.Run(false, ImportInfo([], false, 0), InternalError);
        return false;
      }
      var vault := ReadVault(password, lib);
      if vault.Stopped? {
        callback.Run(false, ImportInfo([], false, 0), vault.error);
        return false;
      }
      if !vault.keyrings.List? {
        return true;
      }
      crashed := ScanKeyrings(isLegacy, callback, vault.keyrings.items);
    }

    /** The stages from the stored text to the parsed keyrings, each failure with its own error. */
    method ReadVault(password: Bytes, lib: Library) returns (r: Stage)
      requires storageData.Some?
      ensures r == OpenVault(storageData.value, password, lib)
    {
      var vaultStr := FindStr(storageData.value, VAULT);
      if vaultStr.None? {
        return Stopped(JsonError);
      }
      var parsedVault := lib.parse(vaultStr.value);
      if parsedVault.None? || !parsedVault.value.Dict? {
        return Stopped(JsonError);
      }
      var vault := parsedVault.value.fields;
      var data, iv, salt := FindStr(vault, ["data"]), FindStr(vault, ["iv"]), FindStr(vault, ["salt"]);
      if data.None? || iv.None? || salt.None? {
        return Stopped(JsonError);
      }
      var saltDecoded := lib.base64(salt.value);
      if saltDecoded.None? {
        return Stopped(JsonError);
      }
      var ivDecoded := lib.base64(iv.value);
      if ivDecoded.None? {
        return Stopped(JsonError);
      }
      var dataDecoded := lib.base64(data.value);
      if dataDecoded.None? {
        return Stopped(JsonError);
      }
      var plain := lib.decrypt(password, saltDecoded.value, dataDecoded.value, ivDecoded.value);
      if plain.None? {
        return Stopped(PasswordError);
      }
      var keyrings := lib.parse(plain.value);
      if keyrings.None? {
        return Stopped(JsonError);
      }
      r := Decrypted(keyrings.value);
    }

    method ScanKeyrings(isLegacy: bool, callback: Callback, entries: seq<Json>) returns (crashed: bool)
      modifies callback
      ensures var outcome := FromKeyrings(entries, isLegacy);
              crashed == outcome.Crash? && callback.runs == old(callback.runs) + Runs(outcome)
    {
      var mnemonic: Option<Bytes> := None;
      var numberOfAccounts: Option<int> := None;
      var n := 0;
      while n < |entries|
        invariant 0 <= n <= |entries| && mnemonic.None?
        invariant FromKeyrings(entries[n..], isLegacy) == FromKeyrings(entries, isLegacy)
        invariant callback.runs == old(callback.runs)
      {
        var entry := entries[n];
        if !entry.Dict? {
          return true;
        }
        var kind := FindStr(entry.fields, ["type"]);
        if kind.None? {
          callback.Run(false, ImportInfo([], false, 0), JsonError);
          return false;
        }
        if kind.value != HD_KEY_TREE {
          n := n + 1;
          continue;
        }
        mnemonic := FindStr(entry.fields, ["data", "mnemonic"]);
        if mnemonic.None? {
          var list := FindList(entry.fields, ["data", "mnemonic"]);
          var bytes: Bytes := [];
          if list.Some? {
            bytes := ReadByteList(list.value);
          }
          if bytes == [] {
            callback.Run(false, ImportInfo([], false, 0), JsonError);
            return false;
          }
          mnemonic := Some(bytes);
        }
        numberOfAccounts := FindInt(entry.fields, ["data", "numberOfAccounts"]);
        assert Mnemonic(entry.fields) == mnemonic;
        assert FromKeyrings(entries, isLegacy) == FromKeyring(entry, isLegacy);
        break;
      }
      if mnemonic.None? {
        callback.Run(false, ImportInfo([], false, 0), JsonError);
        return false;
      }
      callback.Run(true,
                   ImportInfo(mnemonic.value, isLegacy,
                              if numberOfAccounts.Some? then SizeT(numberOfAccounts.value) else 1),
                   NoError);
      crashed := false;
    }

    static method ReadByteList(items: seq<Json>) returns (bytes: Bytes)
      ensures bytes == LeadingBytes(items)
    {
      bytes := [];
      for n := 0 to |items|
        invariant bytes + LeadingBytes(items[n..]) == LeadingBytes(items)
      {
        if !items[n].Int? {
          break;
        }
        Associative(bytes, [items[n].i % 0x100], LeadingBytes(items[n + 1..]));
        assert items[n..][1..] == items[n + 1..];
        bytes := bytes + [items[n].i % 0x100];
      }
    }
  }

  // ---------------------------------------------------------------- when it succeeds, when it crashes

  /** What the vault of a request that gets that far opens to. */
  function Opened(storage: Option<Fields>, password: Bytes, lib: Library): Stage {
    if storage.None? || password == [] then Stopped(InternalError)
    else match VaultPassword(storage.value, password, lib)
      case Aborted => Stopped(InternalError)
      case Password(p) => if p == [] then Stopped(InternalError) else OpenVault(storage.value, p, lib)
  }

  /** Entry `n` is the first decisive one. */
  ghost predicate IsFirstDecisive(entries: seq<Json>, n: int) {
    0 <= n < |entries| && Decisive(entries[n]) && forall k :: 0 <= k < n ==> !Decisive(entries[k])
  }

  /** The storage has argon2 parameters, of whatever kind. */
  ghost predicate HasArgonParams(storage: Fields) {
    exists v :: HasKeyringField(storage, "argonParams", v)
  }

  /** With argon2 parameters in the storage the vault is opened by the derived password, else by the given one. */
  ghost predicate IsVaultPassword(storage: Fields, password: Bytes, lib: Library, p: Bytes) {
    if HasArgonParams(storage) then IsDerived(storage, password, lib, p) else p == password
  }

  lemma LegacyExactly(storage: Fields)
    ensures IsLegacy(storage) <==> HasArgonParams(storage)
  {
    forall v ensures Find(storage, ARGON_PARAMS) == Some(v) <==> HasKeyringField(storage, "argonParams", v) {
      FindKeyringField(storage, "argonParams", v);
    }
  }

  lemma VaultPasswordExactly(storage: Fields, password: Bytes, lib: Library, p: Bytes)
    requires p != []
    ensures VaultPassword(storage, password, lib) == Password(p) <==> IsVaultPassword(storage, password, lib, p)
  {
    LegacyExactly(storage);
    DerivedExactly(storage, password, lib, p);
  }

  /** The whole way from the storage and the given password to the parsed keyrings. */
  ghost predicate OpensTo(storage: Fields, password: Bytes, lib: Library, keyrings: Json) {
    exists p, plain ::
      && p != [] && IsVaultPassword(storage, password, lib, p)
      && DecryptsTo(storage, p, lib, Some(plain)) && lib.parse(plain) == Some(keyrings)
  }

  lemma OpenedExactly(storage: Option<Fields>, password: Bytes, lib: Library, keyrings: Json)
    ensures Opened(storage, password, lib) == Decrypted(keyrings) <==>
            storage.Some? && password != [] && OpensTo(storage.value, password, lib, keyrings)
  {
    if storage.Some? && password != [] {
      forall p: Bytes | p != []
        ensures VaultPassword(storage.value, password, lib) == Password(p)
           <==> IsVaultPassword(storage.value, password, lib, p)
        ensures OpenVault(storage.value, p, lib) == Decrypted(keyrings) <==>
                exists plain :: DecryptsTo(storage.value, p, lib, Some(plain)) && lib.parse(plain) == Some(keyrings)
      {
        VaultPasswordExactly(storage.value, password, lib, p);
        OpenVaultExactly(storage.value, p, lib);
      }
    }
  }

  // ---------------------------------------------------------------- what a successful answer says

  /** An entry of another type, which the scan goes past. */
  ghost predicate PassedOver(entry: Json) {
    exists t :: entry.Dict? && HasField(entry.fields, "type", Str(t)) && t != Latin("HD Key Tree")
  }

  /** The mnemonic is a string, or the truncated leading integers of a list, of which there must be some. */
  ghost predicate MnemonicIs(d: Fields, m: Bytes) {
    || HasNested(d, "data", "mnemonic", Str(m))
    || (m != [] && exists items :: HasNested(d, "data", "mnemonic", List(items)) && AreLeading(items, m))
  }

  ghost predicate AreLeading(items: seq<Json>, m: Bytes) {
    && |m| <= |items|
    && (forall k :: 0 <= k < |m| ==> items[k].Int? && m[k] == items[k].i % 0x100)
    && (|m| == |items| || !items[|m|].Int?)
  }

  /** An integer modulo two to the 64th, and 1 if there is none. */
  ghost predicate AccountsAre(d: Fields, n: nat) {
    if exists k :: HasNested(d, "data", "numberOfAccounts", Int(k)) then
      exists k :: HasNested(d, "data", "numberOfAccounts", Int(k)) && n == k % 0x1_0000_0000_0000_0000
    else n == 1
  }

  ghost predicate IsKeyTree(entry: Json, m: Bytes, accounts: nat) {
    && entry.Dict? && HasField(entry.fields, "type", Str(Latin("HD Key Tree")))
    && MnemonicIs(entry.fields, m) && AccountsAre(entry.fields, accounts)
  }

  lemma MnemonicExactly(d: Fields, m: Bytes)
    ensures Mnemonic(d) == Some(m) <==> MnemonicIs(d, m)
  {
    forall v ensures Find(d, ["data", "mnemonic"]) == Some(v) <==> HasNested(d, "data", "mnemonic", v) {
      FindNested(d, "data", "mnemonic", v);
    }
    forall items: seq<Json> ensures AreLeading(items, m) <==> LeadingBytes(items) == m {
      LeadingBytesLongest(items);
      if AreLeading(items, m) {
        LeadingUnique(items, m, LeadingBytes(items));
      }
    }
  }

  lemma LeadingUnique(items: seq<Json>, a: Bytes, b: Bytes)
    requires AreLeading(items, a) && AreLeading(items, b)
    ensures a == b
  {
  }

  lemma AccountsExactly(d: Fields, n: nat)
    ensures AccountsAre(d, n) <==>
            var k := FindInt(d, ["data", "numberOfAccounts"]); n == if k.Some? then SizeT(k.value) else 1
  {
    forall v
      ensures Find(d, ["data", "numberOfAccounts"]) == Some(v) <==> HasNested(d, "data", "numberOfAccounts", v)
    {
      FindNested(d, "data", "numberOfAccounts", v);
    }
  }

  function Success(info: ImportInfo): Outcome {
    Reply(Answer(true, info, NoError))
  }

  lemma EntryExactly(entry: Json, isLegacy: bool, info: ImportInfo)
    ensures PassedOver(entry) <==> !Decisive(entry)
    ensures Decisive(entry) ==>
              (FromKeyring(entry, isLegacy) == Success(info) <==>
               IsKeyTree(entry, info.mnemonic, info.numberOfAccounts) && info.isLegacy == isLegacy)
    ensures !Decisive(entry) ==> !IsKeyTree(entry, info.mnemonic, info.numberOfAccounts)
  {
    if entry.Dict? {
      MnemonicExactly(entry.fields, info.mnemonic);
      AccountsExactly(entry.fields, info.numberOfAccounts);
    }
  }

  /** Nothing but entries of other types precedes an HD key tree with this mnemonic and number of accounts. */
  ghost predicate FirstKeyTree(entries: seq<Json>, m: Bytes, accounts: nat) {
    exists n :: 0 <= n < |entries| && IsKeyTree(entries[n], m, accounts)
                && forall k :: 0 <= k < n ==> PassedOver(entries[k])
  }

  lemma ScanExactly(entries: seq<Json>, isLegacy: bool, info: ImportInfo)
    ensures FromKeyrings(entries, isLegacy) == Success(info) <==>
            FirstKeyTree(entries, info.mnemonic, info.numberOfAccounts) && info.isLegacy == isLegacy
  {
    var n := FirstDecisiveOutcome(entries, isLegacy);
    forall k | 0 <= k < |entries| ensures PassedOver(entries[k]) <==> !Decisive(entries[k]) {
      EntryExactly(entries[k], isLegacy, info);
    }
    if n < |entries| {
      EntryExactly(entries[n], isLegacy, info);
    }
    forall k | 0 <= k < n ensures !IsKeyTree(entries[k], info.mnemonic, info.numberOfAccounts) {
      EntryExactly(entries[k], isLegacy, info);
    }
  }

  /** Only keyrings that are a list can give a successful answer; an answer without success has empty fields. */
  lemma OutcomeFromOpened(storage: Option<Fields>, password: Bytes, lib: Library)
    ensures var o, v := ImportOutcome(storage, password, lib), Opened(storage, password, lib);
            && (v.Decrypted? && v.keyrings.List? ==> o == FromKeyrings(v.keyrings.items, IsLegacy(storage.value)))
            && ((v.Decrypted? && v.keyrings.List?) || o.Crash? || !o.answer.success)
            && (o.Reply? && !o.answer.success ==> o.answer.info == ImportInfo([], false, 0))
  {
    var v := Opened(storage, password, lib);
    if v.Decrypted? && v.keyrings.List? {
      var n := FirstDecisiveOutcome(v.keyrings.items, IsLegacy(storage.value));
    }
  }

  /**
    A request succeeds with these fields exactly when the password opens the vault to a list of dictionaries of
    other types up to an HD key tree, which has this mnemonic and this number of accounts; the answer is that of
    a legacy wallet exactly when the storage has argon2 parameters. An answer without success has empty fields.
   */
  lemma SuccessMeaning(storage: Option<Fields>, password: Bytes, lib: Library, info: ImportInfo)
    ensures ImportOutcome(storage, password, lib) == Success(info) <==>
            && storage.Some? && password != [] && (info.isLegacy <==> HasArgonParams(storage.value))
            && exists entries :: OpensTo(storage.value, password, lib, List(entries))
                                 && FirstKeyTree(entries, info.mnemonic, info.numberOfAccounts)
    ensures var o := ImportOutcome(storage, password, lib);
            o.Reply? && !o.answer.success ==> o.answer.info == ImportInfo([], false, 0)
  {
    var v := Opened(storage, password, lib);
    OutcomeFromOpened(storage, password, lib);
    forall entries ensures v == Decrypted(List(entries)) <==>
                           storage.Some? && password != [] && OpensTo(storage.value, password, lib, List(entries)) {
      OpenedExactly(storage, password, lib, List(entries));
    }
    if v.Decrypted? && v.keyrings.List? {
      LegacyExactly(storage.value);
      ScanExactly(v.keyrings.items, IsLegacy(storage.value), info);
    }
  }

  predicate HasMnemonic(entry: Json) {
    entry.Dict? && FindStr(entry.fields, ["type"]) == Some(HD_KEY_TREE) && Mnemonic(entry.fields).Some?
  }

  lemma {:induction false} FirstDecisiveOutcome(entries: seq<Json>, isLegacy: bool) returns (n: nat)
    ensures n <= |entries| && forall k :: 0 <= k < n ==> !Decisive(entries[k])
    ensures n < |entries| ==> IsFirstDecisive(entries, n)
    ensures FromKeyrings(entries, isLegacy)
         == if n < |entries| then FromKeyring(entries[n], isLegacy) else Reply(Failed(JsonError))
  {
    if entries == [] || Decisive(entries[0]) {
      n := 0;
    } else {
      var m := FirstDecisiveOutcome(entries[1..], isLegacy);
      n := m + 1;
      assert forall k :: 1 <= k < n ==> entries[k] == entries[1..][k - 1];
    }
  }

  /**
    A request succeeds exactly when the vault opens to a list whose first decisive entry is an HD key tree
    with a mnemonic, and the answer is then made from that entry alone.
   */
  lemma SuccessExactly(storage: Option<Fields>, password: Bytes, lib: Library)
    ensures var o := ImportOutcome(storage, password, lib);
            var v := Opened(storage, password, lib);
            && (o.Reply? && o.answer.success <==>
                v.Decrypted? && v.keyrings.List?
                && exists n :: IsFirstDecisive(v.keyrings.items, n) && HasMnemonic(v.keyrings.items[n]))
            && (v.Decrypted? && v.keyrings.List? ==>
                forall n :: IsFirstDecisive(v.keyrings.items, n) ==>
                  o == FromKeyring(v.keyrings.items[n], IsLegacy(storage.value)))
  {
    var v := Opened(storage, password, lib);
    if v.Decrypted? && v.keyrings.List? {
      var n := FirstDecisiveOutcome(v.keyrings.items, IsLegacy(storage.value));
    }
  }

  /**
    Which error is reported: an internal one exactly before initialization or without a derived password; a
    password error exactly for an empty password or ciphertext that the vault password does not decrypt.
   */
  lemma ErrorMeaning(storage: Option<Fields>, password: Bytes, lib: Library)
    requires ImportOutcome(storage, password, lib).Reply?
    ensures var a := ImportOutcome(storage, password, lib).answer;
            && (a.success <==> a.error == NoError)
            && (a.error == InternalError <==>
                storage.None? || (password != [] && VaultPassword(storage.value, password, lib) == Password([])))
            && (a.error == PasswordError <==>
                && storage.Some?
                && (password == []
                    || (VaultPassword(storage.value, password, lib) != Password([])
                        && DecryptsTo(storage.value, VaultPassword(storage.value, password, lib).p, lib, None))))
  {
    if storage.Some? && password != [] {
      OpenVaultExactly(storage.value, VaultPassword(storage.value, password, lib).p, lib);
    }
    var v := Opened(storage, password, lib);
    if v.Decrypted? && v.keyrings.List? {
      var n := FirstDecisiveOutcome(v.keyrings.items, IsLegacy(storage.value));
    }
  }

  /**
    The callback runs exactly once unless one of three unchecked assumptions is broken: a negative hashLen,
    keyrings that are no list, or a first decisive entry that is no dictionary.
   */
  lemma CallbackExactlyOnce(storage: Option<Fields>, password: Bytes, lib: Library)
    ensures var v := Opened(storage, password, lib);
            var negative := storage.Some? && password != [] && IsLegacy(storage.value)
                            && FindLegacyInputs(storage.value).Some?
                            && FindLegacyInputs(storage.value).value.hashLen < 0;
            var noList := v.Decrypted? && !v.keyrings.List?;
            var noDict := v.Decrypted? && v.keyrings.List?
                          && exists n :: IsFirstDecisive(v.keyrings.items, n) && !v.keyrings.items[n].Dict?;
            |Runs(ImportOutcome(storage, password, lib))| == if negative || noList || noDict then 0 else 1
  {
    var v := Opened(storage, password, lib);
    if v.Decrypted? && v.keyrings.List? {
      var n := FirstDecisiveOutcome(v.keyrings.items, IsLegacy(storage.value));
    }
  }

  /** With a negative hashLen in the storage no password is ever answered. */
  lemma NegativeHashLenNeverAnswers(password: Bytes, lib: Library)
    requires password != []
    ensures var params := Dict(map["hashLen" := Int(-1), "mem" := Int(8), "time" := Int(1), "type" := Int(2)]);
            var storage := map["data" := Dict(map["KeyringController" :=
                                                Dict(map["argonParams" := params, "salt" := Str([])])])];
            Runs(ImportOutcome(Some(storage), password, lib)) == []
  {
    var p: Fields := map["hashLen" := Int(-1), "mem" := Int(8), "time" := Int(1), "type" := Int(2)];
    var controller: Fields := map["argonParams" := Dict(p), "salt" := Str([])];
    var storage: Fields := map["data" := Dict(map["KeyringController" := Dict(controller)])];
    FindThree(storage, "data", "KeyringController", "argonParams");
    FindThree(storage, "data", "KeyringController", "salt");
    LegacyInputsExactly(storage, LegacyInputs(-1, 8, 1, []));
    assert IsArgonParams(storage, p, LegacyInputs(-1, 8, 1, []));
  }

  lemma FindThree(d: Fields, a: string, b: string, c: string)
    requires a in d && d[a].Dict? && b in d[a].fields && d[a].fields[b].Dict?
    ensures var last := d[a].fields[b].fields;
            Find(d, [a, b, c]) == if c in last then Some(last[c]) else None
  {
    assert [a, b, c][1..] == [b, c] && [b, c][1..] == [c];
    assert Find(d[a].fields, [b, c]) == Find(d[a].fields[b].fields, [c]);
  }
}
