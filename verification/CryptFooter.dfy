/**
 * The key slot in vold's crypto footer: a master key wrapped under a password, re-wrapped
 * by footer upgrade, by the first unlock after a key-derivation change and by a password
 * change. Ciphers and key-derivation functions are parameters.
 */
module CryptFooter {
  import opened Util

  type Bytes = seq<int>

  const KDF_PBKDF2 := 1
  const KDF_SCRYPT := 2
  const COUNT_WRAP := 0x1_0000_0000
  const PERSIST_DATA_SIZE := 0x1000
  const FOOTER_TO_PERSIST := 0x1000

  /** Device scrypt parameters, from ro.crypto.scrypt_params or the built-in defaults. */
  datatype Params = Params(n: nat, r: nat, p: nat)

  /** PBKDF2 (section 5.2 of RFC 8018), scrypt (section 6 of RFC 7914) and the block cipher. */
  datatype Crypto = Crypto(
    pbkdf2: (string, Bytes) -> Bytes,
    scrypt: (string, Bytes, Params) -> Bytes,
    enc: (Bytes, Bytes) -> Bytes,
    dec: (Bytes, Bytes) -> Bytes)
  {
    ghost predicate Lawful() {
      forall k, m :: dec(k, enc(k, m)) == m
    }

    /** Unwrapping under another derived key never yields the same master key. */
    ghost predicate Separating() {
      && (forall k, k', m | k != k' && m != [] :: dec(k', enc(k, m)) != m)
      && (forall pw, pw', salt, p :: pbkdf2(pw, salt) != scrypt(pw', salt, p))
    }

    /** Other parameters derive another key, and another key unwraps to something else. */
    ghost predicate Distinguishing() {
      && (forall k, k', b | k != k' :: dec(k, b) != dec(k', b))
      && (forall pw, salt, p, p' | p != p' :: scrypt(pw, salt, p) != scrypt(pw, salt, p'))
    }
  }

  datatype Footer = Footer(
    magicOk: bool, major: nat, minor: nat,
    keyUnencrypted: bool, inProgress: bool,
    fsSize: nat, failed: nat,
    masterKey: Bytes, salt: Bytes,
    persistOffset0: nat, persistOffset1: nat, persistSize: nat,
    kdf: nat, params: Params)

  // ---- get_crypt_ftr_and_key -------------------------------------------------------------

  /** upgrade_crypt_ftr on the struct in memory; `offset` is where the footer starts on the device. */
  function Upgrade(f: Footer, offset: nat, dev: Params): Footer {
    var f1 :=
      if f.major == 1 && f.minor == 0 then
        f.(persistSize := PERSIST_DATA_SIZE,
           persistOffset0 := offset + FOOTER_TO_PERSIST,
           persistOffset1 := offset + FOOTER_TO_PERSIST + PERSIST_DATA_SIZE,
           minor := 1)
      else f;
    if f1.major == 1 && f1.minor != 0 then f1.(kdf := KDF_PBKDF2, params := dev, minor := 2) else f1
  }

  predicate Readable(f: Footer) { f.magicOk && f.major == 1 }

  /** The footer as the callers see it after reading. */
  function Fetched(f: Footer, offset: nat, dev: Params): Footer
    requires Readable(f)
  {
    if f.minor < 2 then Upgrade(f, offset, dev) else f
  }

  /** No footer that was read is at version 1.1, the only version the persistent store accepts. */
  lemma GateNeverOpens(f: Footer, offset: nat, dev: Params)
    requires Readable(f)
    ensures Fetched(f, offset, dev).minor >= 2
  {
  }

  /** The upgrade of a version 1.0 footer places both copies of the persistent data behind it, within its 16 KB. */
  lemma UpgradePlacesCopies(f: Footer, offset: nat, dev: Params)
    requires Readable(f)
    ensures Fetched(f, offset, dev).kdf == if f.minor < 2 then 1 else f.kdf
    ensures var g := Fetched(f, offset, dev);
      if f.minor == 0
      then g.persistSize == 0x1000 && g.persistOffset0 == offset + 0x1000 && g.persistOffset1 == g.persistOffset0 + g.persistSize
      else g.persistSize == f.persistSize && g.persistOffset0 == f.persistOffset0 && g.persistOffset1 == f.persistOffset1
  {
  }

  /** A footer that was read, written back and read again is the same, whatever the parameters are by then. */
  lemma ReadBack(f: Footer, offset: nat, dev: Params, offset': nat, dev': Params)
    requires Readable(f)
    ensures var g := Fetched(f, offset, dev); Readable(g) && Fetched(g, offset', dev') == g
  {
  }

  // ---- Wrapping and unwrapping the master key --------------------------------------------

  function DerivedKey(c: Crypto, f: Footer, pw: string): Bytes {
    if f.kdf == KDF_SCRYPT then c.scrypt(pw, f.salt, f.params) else c.pbkdf2(pw, f.salt)
  }

  function DecryptMasterKey(c: Crypto, f: Footer, pw: string): Bytes {
    c.dec(DerivedKey(c, f, pw), f.masterKey)
  }

  /** encrypt_master_key: always scrypt, with the device's current parameters; the KDF type is left alone. */
  function Rewrapped(c: Crypto, f: Footer, pw: string, key: Bytes, dev: Params): Footer {
    f.(params := dev, masterKey := c.enc(c.scrypt(pw, f.salt, dev), key))
  }

  /** The key that password `pw` gets out of a footer on disk. Before version 1.2 there was only PBKDF2. */
  function KeyOnDisk(c: Crypto, f: Footer, pw: string): Bytes {
    if f.minor < 2 then c.dec(c.pbkdf2(pw, f.salt), f.masterKey) else DecryptMasterKey(c, f, pw)
  }

  /** Upgrading preserves what every password opens, and nothing but the version and the KDF fields moves. */
  lemma UpgradeKeepsKey(c: Crypto, f: Footer, offset: nat, dev: Params, pw: string)
    requires Readable(f)
    ensures DecryptMasterKey(c, Fetched(f, offset, dev), pw) == KeyOnDisk(c, f, pw)
    ensures KeyOnDisk(c, Fetched(f, offset, dev), pw) == KeyOnDisk(c, f, pw)
  {
  }

  /** Re-wrapping under a password opens under it when the stored KDF type is scrypt. */
  lemma RewrapOpens(c: Crypto, f: Footer, pw: string, key: Bytes, dev: Params)
    requires c.Lawful() && f.kdf == KDF_SCRYPT && f.minor >= 2
    ensures KeyOnDisk(c, Rewrapped(c, f, pw, key, dev), pw) == key && Rewrapped(c, f, pw, key, dev).params == dev
  {
  }

  /** ... and only then. */
  lemma RewrapNeedsScrypt(c: Crypto, f: Footer, pw: string, key: Bytes, dev: Params)
    requires c.Lawful() && c.Separating() && key != [] && f.minor >= 2
    ensures KeyOnDisk(c, Rewrapped(c, f, pw, key, dev), pw) == key <==> f.kdf == KDF_SCRYPT
  {
    assert c.pbkdf2(pw, f.salt) != c.scrypt(pw, f.salt, dev);
  }

  // ---- One vold process and the footer on disk -------------------------------------------

  /** What the outside world does during one call: which writes reach the disk, what the devices answer. */
  datatype Env = Env(
    dev: Params, offset: nat,
    upgradeWritten: bool, countWritten: bool, keyWritten: bool,
    cipherOk: bool, mappingOk: bool, fsOk: bool, stack: Bytes)

  /** The footer on disk and the master key held in memory after a successful unlock. */
  datatype Slot = Slot(disk: Footer, saved: Option<Bytes>)

  /** The cipher suite and the key under which the data partition really is encrypted. */
  datatype World = World(crypto: Crypto, volumeKey: Bytes)

  datatype Op =
    | Reboot
    | Read(env: Env)
    | Unlock(pw: string, env: Env)
    | ChangePassword(pw: string, env: Env)

  /** The slot after get_crypt_ftr_and_key has written an upgraded footer back. */
  function FetchStep(s: Slot, env: Env): Slot {
    if Readable(s.disk) && s.disk.minor < 2 && env.upgradeWritten
    then s.(disk := Upgrade(s.disk, env.offset, env.dev)) else s
  }

  lemma FetchKeepsSaved(s: Slot, env: Env)
    ensures FetchStep(s, env).saved == s.saved
    ensures !Readable(s.disk) ==> FetchStep(s, env) == s
  {
  }

  /**
   * test_mount_encrypted_fs on a device that runs encrypted, with the return code. A footer whose key is marked as not
   * encrypted is never decrypted: the code goes on with whatever its stack buffer holds.
   */
  function UnlockStep(w: World, s: Slot, pw: string, env: Env): (Slot, int) {
    if s.saved.Some? || !Readable(s.disk) then (s, -1) else
    var s1 := FetchStep(s, env);
    var f := Fetched(s.disk, env.offset, env.dev);
    var key := if f.keyUnencrypted then env.stack else DecryptMasterKey(w.crypto, f, pw);
    if !env.mappingOk then (s1, -1) else
    var mounted := env.fsOk && key == w.volumeKey;
    var f1 := f.(failed := if mounted then 0 else (f.failed + 1) % COUNT_WRAP);
    var s2 := if f1.failed != f.failed && env.countWritten then s1.(disk := f1) else s1;
    if f1.failed != 0 then (s2, S32(f1.failed)) else
    var s3 := s2.(saved := Some(key));
    if f1.kdf == KDF_SCRYPT then (s3, 0) else
    if !env.cipherOk then (s3, -1) else
    if !env.keyWritten then (s3, -1) else
    (s3.(disk := Rewrapped(w.crypto, f1.(kdf := KDF_SCRYPT), pw, key, env.dev)), 0)
  }

  /** cryptfs_changepw; a cipher failure is not noticed, but the new scrypt parameters are written. */
  function ChangeStep(w: World, s: Slot, pw: string, env: Env): (Slot, int) {
    if s.saved == None || !Readable(s.disk) then (s, -1) else
    var s1 := FetchStep(s, env);
    var f := Fetched(s.disk, env.offset, env.dev);
    var f1 := if env.cipherOk then Rewrapped(w.crypto, f, pw, s.saved.value, env.dev) else f.(params := env.dev);
    (if env.keyWritten then s1.(disk := f1) else s1, 0)
  }

  function Step(w: World, s: Slot, op: Op): Slot {
    match op
    case Reboot => s.(saved := None)
    case Read(env) => FetchStep(s, env)
    case Unlock(pw, env) => UnlockStep(w, s, pw, env).0
    case ChangePassword(pw, env) => ChangeStep(w, s, pw, env).0
  }

  function Run(w: World, s: Slot, ops: seq<Op>): Slot
    decreases ops
  {
    if ops == [] then s else Run(w, Step(w, s, ops[0]), ops[1..])
  }

  // ---- What the callers are told ---------------------------------------------------------

  lemma UnlockRefused(w: World, s: Slot, given: string, env: Env)
    requires s.saved.Some? || !Readable(s.disk)
    ensures UnlockStep(w, s, given, env) == (s, -1)
  {
  }

  /** Without a mapping the attempt is an error and counts for nothing. */
  lemma UnlockUnmapped(w: World, s: Slot, given: string, env: Env)
    requires s.saved == None && Readable(s.disk) && !env.mappingOk
    ensures var (s', code) := UnlockStep(w, s, given, env);
      && code == -1 && s'.saved == None && s'.disk.failed == s.disk.failed
      && forall any :: KeyOnDisk(w.crypto, s'.disk, any) == KeyOnDisk(w.crypto, s.disk, any)
  {
    forall any ensures KeyOnDisk(w.crypto, FetchStep(s, env).disk, any) == KeyOnDisk(w.crypto, s.disk, any) {
      UpgradeKeepsKey(w.crypto, s.disk, env.offset, env.dev, any);
    }
  }

  /**
   * A failed attempt answers with the number of failures, which is also the new count if it could be written; nothing
   * is saved and every password opens what it opened before. From 2^31 failures on the answer is negative.
   */
  lemma FailureCounted(w: World, s: Slot, given: string, env: Env)
    requires Failing(w, s, given, env) && s.disk.failed < COUNT_WRAP - 1
    ensures var (s', code) := UnlockStep(w, s, given, env); var n := s.disk.failed + 1;
      && code == (if n < 0x8000_0000 then n else n - 0x1_0000_0000) && code != 0
      && s'.saved == None && s'.disk.failed == (if env.countWritten then n else s.disk.failed)
      && forall any :: KeyOnDisk(w.crypto, s'.disk, any) == KeyOnDisk(w.crypto, s.disk, any)
  {
    forall any ensures KeyOnDisk(w.crypto, UnlockStep(w, s, given, env).0.disk, any) == KeyOnDisk(w.crypto, s.disk, any) {
      UpgradeKeepsKey(w.crypto, s.disk, env.offset, env.dev, any);
      UpgradeKeepsKey(w.crypto, s.disk, env.offset, env.dev, given);
    }
    UpgradeKeepsKey(w.crypto, s.disk, env.offset, env.dev, given);
  }

  /**
   * The right password saves the key of the partition. It is answered with success exactly when the footer has the
   * scrypt type already or is re-wrapped and written; the failures are forgotten as soon as any footer is written.
   */
  lemma SuccessReported(w: World, s: Slot, given: string, env: Env)
    requires s.saved == None && Readable(s.disk) && !s.disk.keyUnencrypted && env.mappingOk && env.fsOk
    requires w.crypto.Lawful() && KeyOnDisk(w.crypto, s.disk, given) == w.volumeKey
    ensures var (s', code) := UnlockStep(w, s, given, env); var scrypt := s.disk.minor >= 2 && s.disk.kdf == KDF_SCRYPT;
      && code == (if scrypt || (env.cipherOk && env.keyWritten) then 0 else -1)
      && s'.saved == Some(w.volumeKey) && KeyOnDisk(w.crypto, s'.disk, given) == w.volumeKey
      && s'.disk.failed == if env.countWritten || (!scrypt && env.cipherOk && env.keyWritten) then 0 else s.disk.failed
  {
    UpgradeKeepsKey(w.crypto, s.disk, env.offset, env.dev, given);
  }

  lemma CountAsInt(n: nat)
    requires n < COUNT_WRAP
    ensures S32(n) == if n < 0x8000_0000 then n else n - 0x1_0000_0000
  {
  }

  /** An attempt that is answered with success saves a key. */
  lemma UnlockSaves(w: World, s: Slot, given: string, env: Env)
    ensures UnlockStep(w, s, given, env).1 == 0 ==> s.saved == None && UnlockStep(w, s, given, env).0.saved.Some?
  {
  }

  /** A password change is answered with success by every unlocked process, whether or not the cipher or the write failed. */
  lemma ChangeReported(w: World, s: Slot, newpw: string, env: Env)
    ensures var (s', code) := ChangeStep(w, s, newpw, env);
      && code == (if s.saved.Some? && Readable(s.disk) then 0 else -1)
      && (code != 0 ==> s' == s) && s'.saved == s.saved && s'.disk.failed == s.disk.failed
  {
  }

  /** Reading leaves the footer on disk as it was read, if the upgrade could be written, and a reboot forgets the key. */
  lemma ReadAndReboot(w: World, s: Slot, env: Env)
    ensures Readable(s.disk) && env.upgradeWritten ==> Step(w, s, Read(env)).disk == Fetched(s.disk, env.offset, env.dev)
    ensures !Readable(s.disk) || !env.upgradeWritten ==> Step(w, s, Read(env)) == s
    ensures Step(w, s, Reboot) == Slot(s.disk, None)
  {
  }

  /** The parts of a footer that describe the volume. */
  predicate SameVolume(f: Footer, g: Footer) {
    && f.magicOk == g.magicOk && f.major == g.major && f.keyUnencrypted == g.keyUnencrypted && f.inProgress == g.inProgress
    && f.fsSize == g.fsSize && f.salt == g.salt
    && (f.minor >= 1 ==> f.persistOffset0 == g.persistOffset0 && f.persistOffset1 == g.persistOffset1 && f.persistSize == g.persistSize)
    && f.minor <= g.minor
  }

  /** No operation changes what the footer says about the volume. */
  lemma {:induction false} RunKeepsVolume(w: World, s: Slot, ops: seq<Op>)
    ensures SameVolume(s.disk, Run(w, s, ops).disk)
    decreases ops
  {
    if ops != [] {
      StepKeepsVolume(w, s, ops[0]);
      RunKeepsVolume(w, Step(w, s, ops[0]), ops[1..]);
    }
  }

  lemma FetchKeepsVolume(s: Slot, env: Env)
    ensures SameVolume(s.disk, FetchStep(s, env).disk)
    ensures Readable(s.disk) ==> SameVolume(s.disk, Fetched(s.disk, env.offset, env.dev))
  {
  }

  lemma StepKeepsVolume(w: World, s: Slot, op: Op)
    ensures SameVolume(s.disk, Step(w, s, op).disk)
  {
    hide DecryptMasterKey, FetchStep, Fetched, Upgrade, Readable;
    if !op.Reboot? { FetchKeepsVolume(s, op.env); }
  }

  /** When the key is marked as not encrypted, what the stack buffer holds is tried, whatever the password. */
  lemma StackKeyTried(w: World, s: Slot, given: string, env: Env)
    requires s.saved == None && Readable(s.disk) && s.disk.keyUnencrypted && env.mappingOk && s.disk.failed < COUNT_WRAP - 1
    ensures UnlockStep(w, s, given, env).0.saved == if env.fsOk && env.stack == w.volumeKey then Some(w.volumeKey) else None
  {
    hide DecryptMasterKey;
  }

  // ---- What every run keeps --------------------------------------------------------------

  /** The footer opens under `pw` to the key the partition is encrypted with. */
  ghost predicate Opens(w: World, s: Slot, pw: string) {
    KeyOnDisk(w.crypto, s.disk, pw) == w.volumeKey
  }

  ghost predicate Inv(w: World, s: Slot, pw: string) {
    && w.crypto.Lawful()
    && Readable(s.disk) && !s.disk.keyUnencrypted && s.disk.failed < COUNT_WRAP
    && Opens(w, s, pw)
    && (s.saved.Some? ==> s.saved.value == w.volumeKey)
  }

  /** A saved master key implies that the stored KDF type is scrypt. */
  predicate Linked(s: Slot) {
    s.saved.Some? ==> s.disk.minor >= 2 && s.disk.kdf == KDF_SCRYPT
  }

  /** The unlock tries a key and the file system does not mount under it: the failure is counted. */
  predicate Failing(w: World, s: Slot, given: string, env: Env) {
    && s.saved == None && Readable(s.disk) && !s.disk.keyUnencrypted && env.mappingOk
    && !(env.fsOk && KeyOnDisk(w.crypto, s.disk, given) == w.volumeKey)
  }

  /**
   * What has to hold before a step. An unlock: a wrong password must not wrap the failure counter to zero. A
   * password change that is written: the stored type is scrypt, or, when the cipher fails, the new scrypt
   * parameters that are written anyway do not matter to the old password.
   */
  predicate Admissible(w: World, s: Slot, op: Op) {
    match op
    case Unlock(given, env) =>
      !(Failing(w, s, given, env) && s.disk.failed == COUNT_WRAP - 1 && KeyOnDisk(w.crypto, s.disk, given) != w.volumeKey)
    case ChangePassword(_, env) => s.saved.Some? && env.keyWritten ==>
      if env.cipherOk then s.disk.minor >= 2 && s.disk.kdf == KDF_SCRYPT
      else s.disk.minor < 2 || s.disk.kdf != KDF_SCRYPT || s.disk.params == env.dev
    case _ => true
  }

  /** The unlock re-wraps the key under scrypt and the new footer reaches the disk. */
  predicate Migrates(w: World, s: Slot, given: string, env: Env) {
    && s.saved == None && Readable(s.disk)
    && UnlockStep(w, s, given, env).0.saved.Some?
    && Fetched(s.disk, env.offset, env.dev).kdf != KDF_SCRYPT
    && env.cipherOk && env.keyWritten
  }

  /** The password the footer answers to after a step: a migrating unlock re-wraps under the one given. */
  function PasswordAfter(w: World, s: Slot, pw: string, op: Op): string {
    match op
    case ChangePassword(newpw, env) => if s.saved.Some? && env.keyWritten && env.cipherOk then newpw else pw
    case Unlock(given, env) => if Migrates(w, s, given, env) then given else pw
    case _ => pw
  }

  lemma FetchKeeps(w: World, s: Slot, pw: string, env: Env)
    requires Inv(w, s, pw)
    ensures Inv(w, FetchStep(s, env), pw)
    ensures DecryptMasterKey(w.crypto, Fetched(s.disk, env.offset, env.dev), pw) == w.volumeKey
  {
    UpgradeKeepsKey(w.crypto, s.disk, env.offset, env.dev, pw);
  }

  lemma UnlockKeeps(w: World, s: Slot, pw: string, given: string, env: Env)
    requires Inv(w, s, pw) && Admissible(w, s, Unlock(given, env))
    ensures Inv(w, UnlockStep(w, s, given, env).0, PasswordAfter(w, s, pw, Unlock(given, env)))
  {
    FetchKeeps(w, s, pw, env);
    UpgradeKeepsKey(w.crypto, s.disk, env.offset, env.dev, given);
  }

  lemma ChangeKeeps(w: World, s: Slot, pw: string, newpw: string, env: Env)
    requires Inv(w, s, pw) && Admissible(w, s, ChangePassword(newpw, env))
    ensures Inv(w, ChangeStep(w, s, newpw, env).0, PasswordAfter(w, s, pw, ChangePassword(newpw, env)))
  {
    FetchKeeps(w, s, pw, env);
  }

  lemma StepKeeps(w: World, s: Slot, pw: string, op: Op)
    requires Inv(w, s, pw) && Admissible(w, s, op)
    ensures Inv(w, Step(w, s, op), PasswordAfter(w, s, pw, op))
  {
    match op
    case Reboot =>
    case Read(env) => FetchKeeps(w, s, pw, env);
    case Unlock(given, env) => UnlockKeeps(w, s, pw, given, env);
    case ChangePassword(newpw, env) => ChangeKeeps(w, s, pw, newpw, env);
  }

  /** The conditions are exact: a step that does not meet them leaves a slot the footer's password does not open. */
  lemma StepKeepsIff(w: World, s: Slot, pw: string, op: Op)
    requires Inv(w, s, pw) && w.crypto.Separating() && w.crypto.Distinguishing() && w.volumeKey != []
    ensures Inv(w, Step(w, s, op), PasswordAfter(w, s, pw, op)) <==> Admissible(w, s, op)
  {
    if Admissible(w, s, op) {
      StepKeeps(w, s, pw, op);
    } else if op.Unlock? {
      WrapTakesWrongKey(w, s, pw, op.pw, op.env);
    } else if op.env.cipherOk {
      ChangeNeedsLink(w, s, op.pw, op.env);
    } else {
      CipherFailureOldOpens(w, s, pw, op.pw, op.env);
    }
  }

  predicate AllAdmissible(w: World, s: Slot, ops: seq<Op>)
    decreases ops
  {
    ops == [] || (Admissible(w, s, ops[0]) && AllAdmissible(w, Step(w, s, ops[0]), ops[1..]))
  }

  function PasswordAfterRun(w: World, s: Slot, pw: string, ops: seq<Op>): string
    decreases ops
  {
    if ops == [] then pw
    else PasswordAfterRun(w, Step(w, s, ops[0]), PasswordAfter(w, s, pw, ops[0]), ops[1..])
  }

  /** Over every admissible run the footer keeps opening to the partition's key. */
  lemma {:induction false} RunKeeps(w: World, s: Slot, pw: string, ops: seq<Op>)
    requires Inv(w, s, pw) && AllAdmissible(w, s, ops)
    ensures Inv(w, Run(w, s, ops), PasswordAfterRun(w, s, pw, ops))
    decreases ops
  {
    if ops != [] {
      StepKeeps(w, s, pw, ops[0]);
      RunKeeps(w, Step(w, s, ops[0]), PasswordAfter(w, s, pw, ops[0]), ops[1..]);
    }
  }

  // ---- When every step of a run is admissible --------------------------------------------

  /** The cipher works and the re-wrapped footer of an unlock is written. */
  predicate Dependable(op: Op) {
    match op
    case Unlock(_, env) => env.cipherOk && env.keyWritten
    case ChangePassword(_, env) => env.cipherOk
    case _ => true
  }

  /** The failed attempts of a run. */
  function FailedAttempts(w: World, s: Slot, ops: seq<Op>): nat
    decreases ops
  {
    if ops == [] then 0
    else (if ops[0].Unlock? && Failing(w, s, ops[0].pw, ops[0].env) then 1 else 0) + FailedAttempts(w, Step(w, s, ops[0]), ops[1..])
  }

  lemma LinkKept(w: World, s: Slot, pw: string, op: Op)
    requires Inv(w, s, pw) && Linked(s) && Dependable(op) && Admissible(w, s, op)
    ensures Linked(Step(w, s, op))
    ensures Step(w, s, op).disk.failed <= s.disk.failed + if op.Unlock? && Failing(w, s, op.pw, op.env) then 1 else 0
  {
    if op.Unlock? {
      UpgradeKeepsKey(w.crypto, s.disk, op.env.offset, op.env.dev, op.pw);
    }
  }

  /**
   * From a linked slot, if unlocks re-wrap successfully and the failed attempts do not reach the end of the counter,
   * the footer opens at the end and an unlocked process again sees a scrypt footer.
   */
  lemma {:induction false} DependableRunKeeps(w: World, s: Slot, pw: string, ops: seq<Op>)
    requires Inv(w, s, pw) && Linked(s)
    requires forall op | op in ops :: Dependable(op)
    requires s.disk.failed + FailedAttempts(w, s, ops) < COUNT_WRAP
    ensures AllAdmissible(w, s, ops)
    ensures Linked(Run(w, s, ops))
    ensures Inv(w, Run(w, s, ops), PasswordAfterRun(w, s, pw, ops))
    decreases ops
  {
    hide Inv, Linked, Step, Failing;
    if ops != [] {
      assert ops[0] in ops;
      LinkedAdmissible(w, s, pw, ops[0]);
      StepKeeps(w, s, pw, ops[0]);
      LinkKept(w, s, pw, ops[0]);
      DependableRunKeeps(w, Step(w, s, ops[0]), PasswordAfter(w, s, pw, ops[0]), ops[1..]);
    }
  }

  lemma LinkedAdmissible(w: World, s: Slot, pw: string, op: Op)
    requires Inv(w, s, pw) && Linked(s) && Dependable(op)
    requires s.disk.failed + (if op.Unlock? && Failing(w, s, op.pw, op.env) then 1 else 0) < COUNT_WRAP
    ensures Admissible(w, s, op)
  {
  }

  // ---- The password is the one last set --------------------------------------------------

  /** No footer on the way opens to the partition's key under two passwords. */
  ghost predicate Unambiguous(w: World, s: Slot, ops: seq<Op>)
    decreases ops
  {
    && (forall pw, pw' :: Opens(w, s, pw) && Opens(w, s, pw') ==> pw == pw')
    && (ops != [] ==> Unambiguous(w, Step(w, s, ops[0]), ops[1..]))
  }

  function LastSet(w: World, s: Slot, pw: string, ops: seq<Op>): string
    decreases ops
  {
    if ops == [] then pw else
    var op := ops[0];
    var pw' := if op.ChangePassword? && s.saved.Some? && op.env.keyWritten && op.env.cipherOk then op.pw else pw;
    LastSet(w, Step(w, s, op), pw', ops[1..])
  }

  lemma {:induction false} PasswordIsLastSet(w: World, s: Slot, pw: string, ops: seq<Op>)
    requires Inv(w, s, pw) && AllAdmissible(w, s, ops) && Unambiguous(w, s, ops)
    ensures PasswordAfterRun(w, s, pw, ops) == LastSet(w, s, pw, ops)
    decreases ops
  {
    if ops != [] {
      var op := ops[0];
      StepKeeps(w, s, pw, op);
      if op.Unlock? && Migrates(w, s, op.pw, op.env) {
        UpgradeKeepsKey(w.crypto, s.disk, op.env.offset, op.env.dev, op.pw);
        assert Opens(w, s, op.pw) && Opens(w, s, pw);
      }
      PasswordIsLastSet(w, Step(w, s, op), PasswordAfter(w, s, pw, op), ops[1..]);
    }
  }

  // ---- Outside those conditions ----------------------------------------------------------

  /**
   * A password change by an unlocked process leaves a footer that opens under the new password exactly
   * when the footer it started from had the scrypt type.
   */
  lemma ChangeNeedsLink(w: World, s: Slot, newpw: string, env: Env)
    requires w.crypto.Lawful() && w.crypto.Separating() && w.volumeKey != []
    requires Readable(s.disk) && s.saved == Some(w.volumeKey) && env.cipherOk && env.keyWritten
    ensures Opens(w, ChangeStep(w, s, newpw, env).0, newpw) <==> s.disk.minor >= 2 && s.disk.kdf == KDF_SCRYPT
  {
    var f := Fetched(s.disk, env.offset, env.dev);
    RewrapNeedsScrypt(w.crypto, f, newpw, w.volumeKey, env.dev);
  }

  /**
   * When the cipher fails during a password change, the old password still opens the footer exactly when
   * its key is not derived by scrypt or the device's parameters are those of the footer.
   */
  lemma CipherFailureOldOpens(w: World, s: Slot, pw: string, newpw: string, env: Env)
    requires Inv(w, s, pw) && w.crypto.Distinguishing()
    requires s.saved.Some? && env.keyWritten && !env.cipherOk
    ensures Opens(w, ChangeStep(w, s, newpw, env).0, pw) <==>
      s.disk.minor < 2 || s.disk.kdf != KDF_SCRYPT || s.disk.params == env.dev
  {
    UpgradeKeepsKey(w.crypto, s.disk, env.offset, env.dev, pw);
    var k, k' := w.crypto.scrypt(pw, s.disk.salt, s.disk.params), w.crypto.scrypt(pw, s.disk.salt, env.dev);
    if s.disk.params != env.dev {
      assert k != k';
      assert w.crypto.dec(k, s.disk.masterKey) != w.crypto.dec(k', s.disk.masterKey);
    }
  }

  /**
   * A failed unlock that wraps the counter is taken for a success. The key it saves is wrong exactly when the
   * password is, and in no other way does an unlock save a wrong key.
   */
  lemma WrapTakesWrongKey(w: World, s: Slot, pw: string, given: string, env: Env)
    requires Inv(w, s, pw) && s.saved == None
    ensures var s' := UnlockStep(w, s, given, env).0;
      s'.saved.Some? && s'.saved.value != w.volumeKey <==> !Admissible(w, s, Unlock(given, env))
  {
    UpgradeKeepsKey(w.crypto, s.disk, env.offset, env.dev, given);
  }

  /** One attempt before the wrap, a wrong password is reported as right and its key is kept. */
  lemma WrongPasswordAccepted(pw: string, env: Env)
    requires env.mappingOk
    ensures var f := ToyFooter().(kdf := KDF_SCRYPT, failed := COUNT_WRAP - 1, masterKey := [9]);
      var w, s := World(ToyCrypto(), [7]), Slot(f, None);
      !Opens(w, s, pw) && UnlockStep(w, s, pw, env).1 == 0 && UnlockStep(w, s, pw, env).0.saved == Some([])
  {
  }

  /** A cipher in which a key is a visible prefix: enough to follow concrete runs. */
  function ToyCrypto(): Crypto {
    Crypto(
      (pw: string, salt: Bytes) => [1],
      (pw: string, salt: Bytes, p: Params) => [2, p.n],
      (k: Bytes, m: Bytes) => k + m,
      (k: Bytes, b: Bytes) => if k <= b then b[|k|..] else [])
  }

  lemma ToyIsLawful()
    ensures ToyCrypto().Lawful()
  {
    var c := ToyCrypto();
    forall k: Bytes, m: Bytes ensures c.dec(k, c.enc(k, m)) == m {
      assert k <= k + m && (k + m)[|k|..] == m;
    }
  }

  /** A cipher text that shows its key: other keys leave it as it is, with themselves appended. */
  function LabelledCrypto(): Crypto {
    Crypto(
      (pw: string, salt: Bytes) => [1],
      (pw: string, salt: Bytes, p: Params) => [2, p.n, p.r, p.p],
      (k: Bytes, m: Bytes) => [|k|] + k + m,
      (k: Bytes, b: Bytes) => if [|k|] + k <= b then b[|k| + 1..] else b + k)
  }

  lemma SameLabel(k: Bytes, k': Bytes, b: Bytes)
    requires [|k|] + k <= b && [|k'|] + k' <= b
    ensures k == k'
  {
    assert b[0] == ([|k|] + k)[0] && b[0] == ([|k'|] + k')[0];
    assert b[1..|k| + 1] == ([|k|] + k)[1..] == k;
    assert b[1..|k'| + 1] == ([|k'|] + k')[1..] == k';
  }

  /** The laws asked of the crypto can hold together. */
  lemma LawsHoldTogether()
    ensures var c := LabelledCrypto(); c.Lawful() && c.Separating() && c.Distinguishing()
  {
    var c := LabelledCrypto();
    forall k: Bytes, m: Bytes ensures c.dec(k, c.enc(k, m)) == m {
      assert [|k|] + k <= [|k|] + k + m && ([|k|] + k + m)[|k| + 1..] == m;
    }
    forall k: Bytes, k': Bytes, m: Bytes | k != k' && m != [] ensures c.dec(k', c.enc(k, m)) != m {
      var b := [|k|] + k + m;
      assert [|k|] + k <= b;
      if [|k'|] + k' <= b {
        SameLabel(k, k', b);
      } else {
        assert |b + k'| > |m|;
      }
    }
    forall k: Bytes, k': Bytes, b: Bytes | k != k' ensures c.dec(k, b) != c.dec(k', b) {
      Differ(k, k', b);
    }
  }

  lemma Differ(k: Bytes, k': Bytes, b: Bytes)
    requires k != k'
    ensures LabelledCrypto().dec(k, b) != LabelledCrypto().dec(k', b)
  {
    if [|k|] + k <= b {
      if [|k'|] + k' <= b {
        SameLabel(k, k', b);
      }
      assert |b[|k| + 1..]| < |b + k'|;
    } else if [|k'|] + k' <= b {
      assert |b[|k'| + 1..]| < |b + k|;
    } else {
      assert (b + k)[|b|..] == k && (b + k')[|b|..] == k';
    }
  }

  function ToyFooter(): Footer {
    Footer(true, 1, 2, false, false, 0, 0, [1, 7], [], 0, 0, 0, KDF_PBKDF2, Params(0, 0, 0))
  }

  /**
   * If the re-wrapped footer of the first unlock is not written and the password is then changed in the
   * same session, neither the old nor the new password opens the footer any more.
   */
  lemma LostMigrationBricks(pw: string, newpw: string, bad: Env, good: Env)
    requires bad.mappingOk && bad.fsOk && bad.cipherOk && !bad.keyWritten
    requires good.cipherOk && good.keyWritten
    ensures var w, s := World(ToyCrypto(), [7]), Slot(ToyFooter(), None);
      var s' := Run(w, s, [Unlock(pw, bad), ChangePassword(newpw, good)]);
      Inv(w, s, pw) && forall any :: !Opens(w, s', any)
  {
    ToyIsLawful();
    var w, s := World(ToyCrypto(), [7]), Slot(ToyFooter(), None);
    assert [1, 7][1..] == [7];
    var s1 := UnlockStep(w, s, pw, bad).0;
    assert s1.saved == Some([7]) && s1.disk == ToyFooter();
    var s2 := ChangeStep(w, s1, newpw, good).0;
    assert [Unlock(pw, bad), ChangePassword(newpw, good)][1..] == [ChangePassword(newpw, good)];
    assert Run(w, s1, [ChangePassword(newpw, good)]) == s2;
  }

  /** A cipher failure during a password change is not reported, yet it can cost the old password too. */
  lemma CipherFailureBricks(pw: string, newpw: string, env: Env)
    requires !env.cipherOk && env.keyWritten && env.dev.n != 0
    ensures var f := ToyFooter().(kdf := KDF_SCRYPT, masterKey := [2, 0, 7]);
      var w, s := World(ToyCrypto(), [7]), Slot(f, Some([7]));
      Inv(w, s, pw) && ChangeStep(w, s, newpw, env).1 == 0 && forall any :: !Opens(w, ChangeStep(w, s, newpw, env).0, any)
  {
    ToyIsLawful();
    assert [2, 0, 7][2..] == [7];
    assert [2, env.dev.n][1] != [2, 0, 7][1];
  }

  // ---- The process itself ----------------------------------------------------------------

  class Cryptfs {
    const world: World
    var disk: Footer
    var masterKeySaved: bool
    var savedMasterKey: Bytes

    ghost function State(): Slot
      reads this
    {
      Slot(disk, if masterKeySaved then Some(savedMasterKey) else None)
    }

    /** upgrade_crypt_ftr: edits the struct and, if the version moved, writes it back. */
    method UpgradeCryptFtr(f: Footer, env: Env) returns (f': Footer)
      modifies this`disk
      ensures f' == Upgrade(f, env.offset, env.dev)
      ensures disk == if f'.minor != f.minor && env.upgradeWritten then f' else old(disk)
    {
      f' := f;
      if f'.major == 1 && f'.minor == 0 {
        f' := f'.(persistSize := PERSIST_DATA_SIZE);
        f' := f'.(persistOffset0 := env.offset + FOOTER_TO_PERSIST);
        f' := f'.(persistOffset1 := env.offset + FOOTER_TO_PERSIST + PERSIST_DATA_SIZE);
        f' := f'.(minor := 1);
      }
      if f'.major == 1 && f'.minor != 0 {
        f' := f'.(kdf := KDF_PBKDF2);
        f' := f'.(params := env.dev);
        f' := f'.(minor := 2);
      }
      if f.major != f'.major || f.minor != f'.minor {
        if env.upgradeWritten {
          disk := f';
        }
      }
    }

    method GetCryptFtrAndKey(env: Env) returns (r: Option<Footer>)
      modifies this`disk
      ensures State() == FetchStep(old(State()), env)
      ensures r == if Readable(old(disk)) then Some(Fetched(old(disk), env.offset, env.dev)) else None
    {
      var f := disk;
      if !f.magicOk {
        return None;
      }
      if f.major != 1 {
        return None;
      }
      if f.minor < 2 {
        f := UpgradeCryptFtr(f, env);
      }
      r := Some(f);
    }

    method PutCryptFtrAndKey(f: Footer, written: bool) returns (rc: int)
      modifies this`disk
      ensures disk == if written then f else old(disk)
      ensures rc == if written then 0 else -1
    {
      if !written {
        return -1;
      }
      disk := f;
      rc := 0;
    }

    method CheckPasswd(pw: string, env: Env) returns (rc: int)
      modifies this
      ensures (State(), rc) == UnlockStep(world, old(State()), pw, env)
      ensures old(Failing(world, State(), pw, env)) && old(disk.failed) < COUNT_WRAP - 1 ==>
        rc == S32(old(disk.failed) + 1) && rc != 0 && !masterKeySaved
      ensures rc == 0 ==> masterKeySaved && !old(masterKeySaved)
    {
      hide UnlockStep, Failing, S32;
      if Failing(world, State(), pw, env) && disk.failed < COUNT_WRAP - 1 {
        FailureCounted(world, State(), pw, env);
        CountAsInt(disk.failed + 1);
      }
      UnlockSaves(world, State(), pw, env);
      rc := TestMountEncryptedFs(pw, env);
    }

    method TestMountEncryptedFs(pw: string, env: Env) returns (rc: int)
      modifies this
      ensures (State(), rc) == UnlockStep(world, old(State()), pw, env)
    {
      hide Upgrade, Fetched, FetchStep, Rewrapped, DerivedKey, DecryptMasterKey;
      FetchKeepsSaved(State(), env);
      if masterKeySaved {
        return -1;
      }
      var r := GetCryptFtrAndKey(env);
      if r == None {
        return -1;
      }
      var f := r.value;
      var origFailedCount := f.failed;
      var key := env.stack;
      if !f.keyUnencrypted {
        key := DecryptMasterKey(world.crypto, f, pw);
      }
      if !env.mappingOk {
        return -1;
      }
      if env.fsOk && key == world.volumeKey {
        f := f.(failed := 0);
      } else {
        f := f.(failed := (f.failed + 1) % COUNT_WRAP);
      }
      if origFailedCount != f.failed {
        var ignored := PutCryptFtrAndKey(f, env.countWritten);
      }
      if f.failed != 0 {
        return S32(f.failed);
      }
      savedMasterKey := key;
      masterKeySaved := true;
      rc := MigrateKdf(f, pw, env);
    }

    /** Re-wraps the saved key under scrypt if the footer still has an older type. */
    method MigrateKdf(f: Footer, pw: string, env: Env) returns (rc: int)
      modifies this`disk
      ensures rc == if f.kdf == KDF_SCRYPT || (env.cipherOk && env.keyWritten) then 0 else -1
      ensures disk == if f.kdf != KDF_SCRYPT && env.cipherOk && env.keyWritten
        then Rewrapped(world.crypto, f.(kdf := KDF_SCRYPT), pw, savedMasterKey, env.dev) else old(disk)
    {
      rc := 0;
      if f.kdf != KDF_SCRYPT {
        var f' := f.(kdf := KDF_SCRYPT);
        if !env.cipherOk {
          return -1;
        }
        f' := Rewrapped(world.crypto, f', pw, savedMasterKey, env.dev);
        rc := PutCryptFtrAndKey(f', env.keyWritten);
      }
    }

    method ChangePw(newpw: string, env: Env) returns (rc: int)
      modifies this
      ensures (State(), rc) == ChangeStep(world, old(State()), newpw, env)
    {
      if !masterKeySaved {
        return -1;
      }
      var r := GetCryptFtrAndKey(env);
      if r == None {
        return -1;
      }
      var f := r.value;
      if env.cipherOk {
        f := Rewrapped(world.crypto, f, newpw, savedMasterKey, env.dev);
      } else {
        f := f.(params := env.dev);
      }
      var ignored := PutCryptFtrAndKey(f, env.keyWritten);
      rc := 0;
    }

    /** An unlocked process accepts exactly the passwords that open the footer. */
    method VerifyPasswd(pw: string, env: Env) returns (rc: int)
      modifies this`disk
      ensures State() == if old(masterKeySaved) then FetchStep(old(State()), env) else old(State())
      ensures forall current | old(Inv(world, State(), current)) && old(masterKeySaved) ::
        (rc == 0 <==> KeyOnDisk(world.crypto, old(disk), pw) == world.volumeKey) && (rc == 0 || rc == 1)
      ensures !old(masterKeySaved) || !Readable(old(disk)) ==> rc == -1
      ensures old(masterKeySaved) && Readable(old(disk)) && old(disk).keyUnencrypted ==> rc == 0
    {
      if !masterKeySaved {
        return -1;
      }
      var r := GetCryptFtrAndKey(env);
      if r == None {
        return -1;
      }
      var f := r.value;
      if f.keyUnencrypted {
        return 0;
      }
      UpgradeKeepsKey(world.crypto, old(disk), env.offset, env.dev, pw);
      var key := DecryptMasterKey(world.crypto, f, pw);
      rc := if key == savedMasterKey then 0 else 1;
    }
  }
}
