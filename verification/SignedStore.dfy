/**
  The store of signed vendor profiles: a directory tree that behaves as a map from (name, version)
  to the profile that was installed there.
 */
module SignedStore {
  import opened PathCodec
  import opened Sorting
  import Manifest

  const MAX_NAMES: nat := 64
  const MAX_VERSIONS: nat := 64
  const MAX_PACKAGE_BYTES: nat := 64 * 1024
  const MAX_HEX_FILE_BYTES: nat := 4096
  const NEWLINE: byte := 10

  datatype Key = Key(name: Bytes, version: Bytes)
  datatype Envelope = Envelope(name: Bytes, version: Bytes, content: nat)
  datatype InstallManifest = InstallManifest(
    schemaVersion: nat, key: Key, installedAt: int,
    packageSha256: Manifest.Digest, packageBytes: nat, fingerprint: Bytes)
  datatype Installed = Installed(key: Key, manifest: InstallManifest, envelope: Envelope)

  datatype FileName = PackageFile | SignatureFile | PublicKeyFile | ManifestFile
  datatype StoredFile = Raw(bytes: Bytes) | Document(manifest: InstallManifest)
  type Installation = map<FileName, StoredFile>
  type Directory = map<Bytes, Installation>
  type Store = map<Bytes, Directory>

  /** The signature check (package, signature, public key, fingerprint) and the compiled-in names. */
  datatype Trust = Trust(verify: (Bytes, Bytes, Bytes, Bytes) -> Option<Envelope>, builtins: set<Bytes>)

  // ---------------------------------------------------------------------------------------------
  // Hexadecimal text
  // ---------------------------------------------------------------------------------------------

  function Nibble(b: byte): (v: Option<int>)
    ensures v.Some? ==> 0 <= v.value < 16
  {
    if 48 <= b <= 57 then Some(b - 48)
    else if 97 <= b <= 102 then Some(b - 87)
    else if 65 <= b <= 70 then Some(b - 55)
    else None
  }

  function LowerDigit(n: int): (d: byte)
    requires 0 <= n < 16
    ensures Nibble(d) == Some(n) && !IsWhite(d)
  {
    if n < 10 then 48 + n else 87 + n
  }

  function HexDecode(s: Bytes): Option<Bytes> {
    if s == [] then Some([])
    else if |s| == 1 then None
    else
      var high, low, rest := Nibble(s[0]), Nibble(s[1]), HexDecode(s[2..]);
      if high.Some? && low.Some? && rest.Some? then Some([16 * high.value + low.value] + rest.value) else None
  }

  function HexEncode(bytes: Bytes): (s: Bytes)
    ensures |s| == 2 * |bytes|
  {
    if bytes == [] then []
    else [LowerDigit(bytes[0] / 16), LowerDigit(bytes[0] % 16)] + HexEncode(bytes[1..])
  }

  predicate IsWhite(b: byte) {
    b == 32 || 9 <= b <= 13
  }

  function TrimStart(s: Bytes): Bytes {
    if s != [] && IsWhite(s[0]) then TrimStart(s[1..]) else s
  }

  function TrimEnd(s: Bytes): Bytes {
    if s != [] && IsWhite(s[|s| - 1]) then TrimEnd(s[..|s| - 1]) else s
  }

  function NormalizeHex(text: Bytes, count: nat): Option<Bytes> {
    var decoded := HexDecode(TrimEnd(TrimStart(text)));
    if decoded.Some? && |decoded.value| == count then Some(HexEncode(decoded.value)) else None
  }

  function NormalizeHexFile(text: Bytes, count: nat): Option<Bytes> {
    if |text| > MAX_HEX_FILE_BYTES then None else NormalizeHex(text, count)
  }

  lemma {:induction false} HexRoundTrip(bytes: Bytes)
    ensures HexDecode(HexEncode(bytes)) == Some(bytes)
    ensures forall i :: 0 <= i < |HexEncode(bytes)| ==> !IsWhite(HexEncode(bytes)[i])
  {
    if bytes != [] {
      HexRoundTrip(bytes[1..]);
      var s := HexEncode(bytes);
      assert s[2..] == HexEncode(bytes[1..]);
      assert s[0] == LowerDigit(bytes[0] / 16) && s[1] == LowerDigit(bytes[0] % 16);
      assert 16 * (bytes[0] / 16) + bytes[0] % 16 == bytes[0];
      assert bytes == [bytes[0]] + bytes[1..];
      assert forall i :: 2 <= i < |s| ==> s[i] == s[2..][i - 2];
    }
  }

  /** Normal text is its own normal form, with or without the line end that the store writes. */
  lemma NormalizedAgain(text: Bytes, count: nat)
    requires NormalizeHex(text, count).Some?
    ensures var h := NormalizeHex(text, count).value;
            |h| == 2 * count && NormalizeHex(h, count) == Some(h) && NormalizeHex(h + [NEWLINE], count) == Some(h)
  {
    var bytes := HexDecode(TrimEnd(TrimStart(text))).value;
    var h := HexEncode(bytes);
    HexRoundTrip(bytes);
    assert TrimStart(h) == h && TrimEnd(h) == h;
    assert (h + [NEWLINE])[..|h|] == h;
    if h == [] {
      assert (h + [NEWLINE])[1..] == [];
    } else {
      assert (h + [NEWLINE])[0] == h[0];
      assert TrimStart(h + [NEWLINE]) == h + [NEWLINE];
    }
  }

  // ---------------------------------------------------------------------------------------------
  // One installation
  // ---------------------------------------------------------------------------------------------

  predicate IsAlphanumeric(b: byte) {
    48 <= b <= 57 || 65 <= b <= 90 || 97 <= b <= 122
  }

  predicate IsComponent(name: Bytes) {
    && name != [] && |name| <= 64 && IsAlphanumeric(name[0])
    && forall i :: 1 <= i < |name| ==> IsAlphanumeric(name[i]) || name[i] == DOT || name[i] == 95 || name[i] == 45
  }

  predicate IsAllowed(trust: Trust, key: Key) {
    IsComponent(key.name) && IsComponent(key.version) && key.name !in trust.builtins
  }

  /** A package whose signature was checked, with its texts in normal form. */
  datatype Package = Package(bytes: Bytes, signature: Bytes, publicKey: Bytes, fingerprint: Bytes, envelope: Envelope)

  function KeyOf(e: Envelope): Key {
    Key(e.name, e.version)
  }

  function CheckPackage(trust: Trust, package: Bytes, signature: Bytes, publicKey: Bytes, fingerprint: Bytes): (r: Option<Package>)
    ensures r.Some? ==> IsGenuine(trust, r.value) && r.value.bytes == package
  {
    var f, s, k := NormalizeHex(fingerprint, 32), NormalizeHexFile(signature, 64), NormalizeHexFile(publicKey, 32);
    if f.None? || s.None? || k.None? || |package| > MAX_PACKAGE_BYTES then None
    else
      var envelope := trust.verify(package, s.value, k.value, f.value);
      if envelope.None? || !IsAllowed(trust, KeyOf(envelope.value)) then None
      else
        NormalizedAgain(fingerprint, 32);
        NormalizedAgain(signature, 64);
        NormalizedAgain(publicKey, 32);
        Some(Package(package, s.value, k.value, f.value, envelope.value))
  }

  predicate IsGenuine(trust: Trust, p: Package) {
    && trust.verify(p.bytes, p.signature, p.publicKey, p.fingerprint) == Some(p.envelope)
    && IsAllowed(trust, KeyOf(p.envelope)) && |p.bytes| <= MAX_PACKAGE_BYTES
    && NormalizeHexFile(p.signature + [NEWLINE], 64) == Some(p.signature)
    && NormalizeHexFile(p.publicKey + [NEWLINE], 32) == Some(p.publicKey)
    && NormalizeHex(p.fingerprint, 32) == Some(p.fingerprint)
  }

  function ProfileOf(p: Package, now: int): Installed {
    Installed(KeyOf(p.envelope), ManifestOf(p, now), p.envelope)
  }

  function ManifestOf(p: Package, now: int): InstallManifest {
    InstallManifest(1, KeyOf(p.envelope), now, Manifest.Sha256(p.bytes), |p.bytes|, p.fingerprint)
  }

  function FilesOf(p: Package, now: int): Installation {
    map[PackageFile := Raw(p.bytes), SignatureFile := Raw(p.signature + [NEWLINE]),
        PublicKeyFile := Raw(p.publicKey + [NEWLINE]), ManifestFile := Document(ManifestOf(p, now))]
  }

  /** `verify_installed_profile`: everything is checked again from the stored files alone. */
  function VerifyInstalled(trust: Trust, key: Key, files: Installation): (r: Option<Installed>)
    ensures r.Some? ==> r.value.key == key && IsAllowed(trust, key) && KeyOf(r.value.envelope) == key
  {
    if files.Keys != {PackageFile, SignatureFile, PublicKeyFile, ManifestFile} then None
    else if !(files[PackageFile].Raw? && files[SignatureFile].Raw? && files[PublicKeyFile].Raw?
              && files[ManifestFile].Document?) then None
    else
      var manifest, package := files[ManifestFile].manifest, files[PackageFile].bytes;
      var f := NormalizeHex(manifest.fingerprint, 32);
      var s := NormalizeHexFile(files[SignatureFile].bytes, 64);
      var k := NormalizeHexFile(files[PublicKeyFile].bytes, 32);
      if manifest.schemaVersion != 1 || !IsAllowed(trust, manifest.key) || manifest.key != key then None
      else if f.None? || |package| > MAX_PACKAGE_BYTES then None
      else if |package| != manifest.packageBytes || Manifest.Sha256(package) != manifest.packageSha256 then None
      else if s.None? || k.None? then None
      else
        var envelope := trust.verify(package, s.value, k.value, f.value);
        if envelope.None? || KeyOf(envelope.value) != manifest.key then None
        else Some(Installed(key, manifest, envelope.value))
  }

  /** What installing writes passes every later check and gives back what was installed. */
  lemma InstalledVerifies(trust: Trust, p: Package, now: int)
    requires IsGenuine(trust, p)
    ensures VerifyInstalled(trust, KeyOf(p.envelope), FilesOf(p, now))
            == Some(ProfileOf(p, now))
  {
  }

  // ---------------------------------------------------------------------------------------------
  // What the checks mean, on bytes and fields
  // ---------------------------------------------------------------------------------------------

  ghost predicate IsHexByte(b: byte) {
    48 <= b <= 57 || 97 <= b <= 102 || 65 <= b <= 70
  }

  ghost predicate IsSpaceByte(b: byte) {
    b == 32 || b == 9 || b == 10 || b == 11 || b == 12 || b == 13
  }

  /** `h` is `core` with the letters in lower case, and `core` is hexadecimal. */
  ghost predicate IsLoweredHex(core: Bytes, h: Bytes) {
    && |core| == |h|
    && forall k :: 0 <= k < |core| ==> IsHexByte(core[k]) && h[k] == if 65 <= core[k] <= 70 then core[k] + 32 else core[k]
  }

  /** `text` is hexadecimal for `count` bytes between white space, and `h` is the same in lower case. */
  ghost predicate IsNormalOf(text: Bytes, count: nat, h: Bytes) {
    exists i, j ::
      && 0 <= i <= j <= |text| && j - i == 2 * count
      && (forall k :: 0 <= k < i || j <= k < |text| ==> IsSpaceByte(text[k]))
      && IsLoweredHex(text[i..j], h)
  }

  lemma NibbleMeans(b: byte)
    ensures Nibble(b).Some? <==> IsHexByte(b)
    ensures Nibble(b).Some? ==> LowerDigit(Nibble(b).value) == if 65 <= b <= 70 then b + 32 else b
  {
  }

  lemma {:induction false} HexMeans(s: Bytes, h: Bytes)
    ensures (HexDecode(s).Some? && HexEncode(HexDecode(s).value) == h) <==> |s| % 2 == 0 && IsLoweredHex(s, h)
    ensures HexDecode(s).Some? ==> |s| == 2 * |HexDecode(s).value|
  {
    hide HexDecode, HexEncode, IsLoweredHex, LowerDigit, Nibble;
    if |s| < 2 {
      FewDigits(s, h);
    } else {
      HexMeans(s[2..], if |h| >= 2 then h[2..] else []);
      HexPair(s, h);
      if |h| >= 2 {
        TwoDigits(s[..2], h[..2]);
        LoweredPair(s, h);
      } else {
        LoweredLength(s, h);
      }
    }
  }

  lemma FewDigits(s: Bytes, h: Bytes)
    requires |s| < 2
    ensures HexDecode(s).Some? <==> s == []
    ensures s == [] ==> HexDecode(s).value == [] && HexEncode([]) == [] && (IsLoweredHex(s, h) <==> h == [])
  {
  }

  lemma LoweredLength(s: Bytes, h: Bytes)
    ensures IsLoweredHex(s, h) ==> |s| == |h|
  {
  }

  lemma TwoDigits(s: Bytes, h: Bytes)
    requires |s| == |h| == 2
    ensures IsLoweredHex(s, h) <==>
              && Nibble(s[0]).Some? && Nibble(s[1]).Some?
              && h[0] == LowerDigit(Nibble(s[0]).value) && h[1] == LowerDigit(Nibble(s[1]).value)
  {
    hide LowerDigit, Nibble, IsHexByte;
    NibbleMeans(s[0]);
    NibbleMeans(s[1]);
  }

  /** Decoding and encoding two digits and what follows. */
  lemma HexPair(s: Bytes, h: Bytes)
    requires |s| >= 2
    ensures HexDecode(s).Some? <==> Nibble(s[0]).Some? && Nibble(s[1]).Some? && HexDecode(s[2..]).Some?
    ensures HexDecode(s).Some? ==>
              && |HexDecode(s).value| == 1 + |HexDecode(s[2..]).value|
              && (HexEncode(HexDecode(s).value) == h <==>
                    |h| >= 2 && h[0] == LowerDigit(Nibble(s[0]).value) && h[1] == LowerDigit(Nibble(s[1]).value)
                    && h[2..] == HexEncode(HexDecode(s[2..]).value))
  {
    hide LowerDigit;
    if HexDecode(s).Some? {
      var high, low, rest := Nibble(s[0]).value, Nibble(s[1]).value, HexDecode(s[2..]).value;
      var v := HexDecode(s).value;
      assert v == [16 * high + low] + rest;
      assert v[0] / 16 == high && v[0] % 16 == low && v[1..] == rest;
      var e := HexEncode(v);
      assert e == [LowerDigit(high), LowerDigit(low)] + HexEncode(rest);
      assert e[2..] == HexEncode(rest);
      if |h| >= 2 {
        assert h == [h[0], h[1]] + h[2..];
      }
    }
  }

  lemma LoweredPair(s: Bytes, h: Bytes)
    requires |s| >= 2 && |h| >= 2
    ensures IsLoweredHex(s, h) <==>
              && IsLoweredHex(s[..2], h[..2]) && IsLoweredHex(s[2..], h[2..])
  {
    hide IsHexByte;
    if IsLoweredHex(s[..2], h[..2]) && IsLoweredHex(s[2..], h[2..]) {
      forall k | 0 <= k < |s|
        ensures IsHexByte(s[k]) && h[k] == if 65 <= s[k] <= 70 then s[k] + 32 else s[k]
      {
        if k < 2 {
          assert s[..2][k] == s[k] && h[..2][k] == h[k];
        } else {
          assert s[2..][k - 2] == s[k] && h[2..][k - 2] == h[k];
        }
      }
    }
  }

  /** Trimming takes away white space at both ends, and no more. */
  lemma {:induction false} TrimmedStart(s: Bytes) returns (i: nat)
    ensures i <= |s| && TrimStart(s) == s[i..]
    ensures forall k :: 0 <= k < i ==> IsSpaceByte(s[k])
    ensures i < |s| ==> !IsSpaceByte(s[i])
  {
    if s != [] && IsWhite(s[0]) {
      i := TrimmedStart(s[1..]);
      i := i + 1;
    } else {
      i := 0;
    }
  }

  lemma {:induction false} TrimmedEnd(s: Bytes) returns (j: nat)
    ensures j <= |s| && TrimEnd(s) == s[..j]
    ensures forall k :: j <= k < |s| ==> IsSpaceByte(s[k])
    ensures j > 0 ==> !IsSpaceByte(s[j - 1])
  {
    if s != [] && IsWhite(s[|s| - 1]) {
      j := TrimmedEnd(s[..|s| - 1]);
      assert s[..|s| - 1][..j] == s[..j];
    } else {
      j := |s|;
    }
  }

  lemma Trimmed(s: Bytes) returns (i: nat, j: nat)
    ensures i <= j <= |s| && TrimEnd(TrimStart(s)) == s[i..j]
    ensures forall k :: 0 <= k < i || j <= k < |s| ==> IsSpaceByte(s[k])
    ensures i < j ==> !IsSpaceByte(s[i]) && !IsSpaceByte(s[j - 1])
  {
    hide IsSpaceByte, TrimStart, TrimEnd;
    i := TrimmedStart(s);
    var t := s[i..];
    j := TrimmedEnd(t);
    j := i + j;
    assert t[..j - i] == s[i..j];
    assert i < j ==> t[0] == s[i] && t[j - i - 1] == s[j - 1];
    forall k | j <= k < |s|
      ensures IsSpaceByte(s[k])
    {
      assert s[k] == t[k - i];
    }
  }

  lemma NormalMeans(text: Bytes, count: nat, h: Bytes)
    ensures NormalizeHex(text, count) == Some(h) <==> IsNormalOf(text, count, h)
  {
    hide HexDecode, HexEncode, TrimStart, TrimEnd, IsLoweredHex;
    var i, j := Trimmed(text);
    var core := text[i..j];
    HexMeans(core, h);
    if NormalizeHex(text, count) == Some(h) {
      assert IsLoweredHex(text[i..j], h);
    }
    if IsNormalOf(text, count, h) {
      var i', j' :| 0 <= i' <= j' <= |text| && j' - i' == 2 * count
                    && (forall k :: 0 <= k < i' || j' <= k < |text| ==> IsSpaceByte(text[k]))
                    && IsLoweredHex(text[i'..j'], h);
      HexIsNotSpace(text[i'..j'], h);
      assert forall k :: i' <= k < j' ==> text[k] == text[i'..j'][k - i'];
      assert i' < j' ==> !IsSpaceByte(text[i']) && !IsSpaceByte(text[j' - 1]);
      assert core == text[i'..j'];
    }
  }

  lemma HexIsNotSpace(core: Bytes, h: Bytes)
    requires IsLoweredHex(core, h)
    ensures forall k :: 0 <= k < |core| ==> !IsSpaceByte(core[k])
  {
  }

  /** 1 to 64 letters, digits, dots, underscores and hyphens that start with a letter or a digit. */
  ghost predicate IsPlainName(name: Bytes) {
    && 1 <= |name| <= 64 && name[0] != 46 && name[0] != 95 && name[0] != 45
    && forall i :: 0 <= i < |name| ==>
         (48 <= name[i] <= 57 || 65 <= name[i] <= 90 || 97 <= name[i] <= 122 || name[i] == 46 || name[i] == 95 || name[i] == 45)
  }

  lemma ComponentMeans(name: Bytes)
    ensures IsComponent(name) <==> IsPlainName(name)
  {
  }

  /** The four texts of a request make the package `p`: hexadecimal texts of the right lengths, a small
      enough package, a good signature, and a name that is plain and not built in. */
  ghost predicate IsSigned(trust: Trust, package: Bytes, signature: Bytes, publicKey: Bytes, fingerprint: Bytes, p: Package) {
    && p.bytes == package && |package| <= 65536
    && IsNormalOf(fingerprint, 32, p.fingerprint)
    && |signature| <= 4096 && IsNormalOf(signature, 64, p.signature)
    && |publicKey| <= 4096 && IsNormalOf(publicKey, 32, p.publicKey)
    && trust.verify(package, p.signature, p.publicKey, p.fingerprint) == Some(p.envelope)
    && IsPlainName(p.envelope.name) && IsPlainName(p.envelope.version) && p.envelope.name !in trust.builtins
  }

  /** A package is accepted exactly if it is well signed, of an allowed name, and not too large. */
  lemma CheckMeans(trust: Trust, package: Bytes, signature: Bytes, publicKey: Bytes, fingerprint: Bytes, p: Package)
    ensures CheckPackage(trust, package, signature, publicKey, fingerprint) == Some(p)
            <==> IsSigned(trust, package, signature, publicKey, fingerprint, p)
  {
    hide NormalizeHex, IsNormalOf, IsComponent, IsPlainName, IsGenuine;
    NormalMeans(fingerprint, 32, p.fingerprint);
    NormalMeans(signature, 64, p.signature);
    NormalMeans(publicKey, 32, p.publicKey);
    ComponentMeans(p.envelope.name);
    ComponentMeans(p.envelope.version);
  }

  /** The files of an installation are those of `key` and untouched: exactly four of them, a manifest of
      this schema, key, length and digest, and a good signature by the signer that the manifest names. */
  ghost predicate IsIntact(trust: Trust, key: Key, files: Installation, i: Installed) {
    && (forall f: FileName :: f in files)
    && files[PackageFile].Raw? && files[SignatureFile].Raw? && files[PublicKeyFile].Raw? && files[ManifestFile] == Document(i.manifest)
    && i.key == key && i.manifest.key == key && i.manifest.schemaVersion == 1
    && IsPlainName(key.name) && IsPlainName(key.version) && key.name !in trust.builtins
    && var package := files[PackageFile].bytes;
       && |package| <= 65536 && |package| == i.manifest.packageBytes && Manifest.Sha256(package) == i.manifest.packageSha256
       && i.envelope.name == key.name && i.envelope.version == key.version
       && IsSignedBy(trust, package, files[SignatureFile].bytes, files[PublicKeyFile].bytes, i.manifest.fingerprint, i.envelope)
  }

  ghost predicate IsSignedBy(trust: Trust, package: Bytes, signature: Bytes, publicKey: Bytes, fingerprint: Bytes, e: Envelope) {
    exists s, k, f ::
      && |signature| <= 4096 && IsNormalOf(signature, 64, s)
      && |publicKey| <= 4096 && IsNormalOf(publicKey, 32, k)
      && IsNormalOf(fingerprint, 32, f) && trust.verify(package, s, k, f) == Some(e)
  }

  lemma SignedByMeans(trust: Trust, package: Bytes, signature: Bytes, publicKey: Bytes, fingerprint: Bytes, e: Envelope)
    ensures var s, k, f := NormalizeHexFile(signature, 64), NormalizeHexFile(publicKey, 32), NormalizeHex(fingerprint, 32);
            (s.Some? && k.Some? && f.Some? && trust.verify(package, s.value, k.value, f.value) == Some(e))
            <==> IsSignedBy(trust, package, signature, publicKey, fingerprint, e)
  {
    hide NormalizeHex, IsNormalOf;
    forall h
      ensures NormalizeHex(signature, 64) == Some(h) <==> IsNormalOf(signature, 64, h)
      ensures NormalizeHex(publicKey, 32) == Some(h) <==> IsNormalOf(publicKey, 32, h)
      ensures NormalizeHex(fingerprint, 32) == Some(h) <==> IsNormalOf(fingerprint, 32, h)
    {
      NormalMeans(signature, 64, h);
      NormalMeans(publicKey, 32, h);
      NormalMeans(fingerprint, 32, h);
    }
  }

  lemma FourFiles(files: Installation)
    ensures files.Keys == {PackageFile, SignatureFile, PublicKeyFile, ManifestFile} <==> forall f: FileName :: f in files
  {
    var all := {PackageFile, SignatureFile, PublicKeyFile, ManifestFile};
    forall f: FileName
      ensures f in all
    {
      match f
      case PackageFile =>
      case SignatureFile =>
      case PublicKeyFile =>
      case ManifestFile =>
    }
    if forall f: FileName :: f in files {
      assert all <= files.Keys;
    }
  }

  /** The verification of an installation accepts exactly the intact ones. */
  lemma VerifyMeans(trust: Trust, key: Key, files: Installation, i: Installed)
    ensures VerifyInstalled(trust, key, files) == Some(i) <==> IsIntact(trust, key, files, i)
  {
    hide NormalizeHex, NormalizeHexFile, IsNormalOf, IsComponent, IsPlainName, IsSignedBy;
    FourFiles(files);
    ComponentMeans(key.name);
    ComponentMeans(key.version);
    if files.Keys == {PackageFile, SignatureFile, PublicKeyFile, ManifestFile}
       && files[PackageFile].Raw? && files[SignatureFile].Raw? && files[PublicKeyFile].Raw? && files[ManifestFile].Document? {
      SignedByMeans(trust, files[PackageFile].bytes, files[SignatureFile].bytes, files[PublicKeyFile].bytes,
                    files[ManifestFile].manifest.fingerprint, i.envelope);
    }
  }

  // ---------------------------------------------------------------------------------------------
  // The store as a map
  // ---------------------------------------------------------------------------------------------

  predicate IsHidden(name: Bytes) {
    name != [] && name[0] == DOT
  }

  predicate IsLive(s: Store, k: Key) {
    k.name in s && k.version in s[k.name] && !IsHidden(k.name) && !IsHidden(k.version)
  }

  function Visible(names: set<Bytes>): set<Bytes> {
    set n | n in names && !IsHidden(n)
  }

  predicate HasHidden(names: set<Bytes>) {
    exists n :: n in names && IsHidden(n)
  }

  predicate HasOrphans(s: Store) {
    HasHidden(s.Keys) || exists n :: n in s && HasHidden(s[n].Keys)
  }

  datatype Event = Published(profile: Installed) | Withdrawn(key: Key)

  function Replayed(history: seq<Event>): map<Key, Installed> {
    if history == [] then map[]
    else
      var before := Replayed(history[..|history| - 1]);
      match history[|history| - 1]
      case Published(profile) => before[profile.key := profile]
      case Withdrawn(key) => before - {key}
  }

  /** Nothing is published over a live entry, and only live entries are withdrawn. */
  predicate NeverOverwrites(history: seq<Event>) {
    history != [] ==>
      && NeverOverwrites(history[..|history| - 1])
      && match history[|history| - 1]
         case Published(profile) => profile.key !in Replayed(history[..|history| - 1])
         case Withdrawn(key) => key in Replayed(history[..|history| - 1])
  }

  lemma ReplayPush(history: seq<Event>, e: Event)
    requires NeverOverwrites(history)
    requires e.Published? ==> e.profile.key !in Replayed(history)
    requires e.Withdrawn? ==> e.key in Replayed(history)
    ensures NeverOverwrites(history + [e])
    ensures e.Published? ==> Replayed(history + [e]) == Replayed(history)[e.profile.key := e.profile]
    ensures e.Withdrawn? ==> Replayed(history + [e]) == Replayed(history) - {e.key}
  {
    assert (history + [e])[..|history|] == history;
  }

  /** The visible entries are those of `m`, and each verifies to what `m` says was installed. */
  ghost predicate Matches(trust: Trust, s: Store, m: map<Key, Installed>) {
    && (forall k :: k in m <==> IsLive(s, k))
    && (forall k :: k in m ==> VerifyInstalled(trust, k, s[k.name][k.version]) == Some(m[k]))
  }

  predicate IsSized(s: Store) {
    |Visible(s.Keys)| <= MAX_NAMES && forall n :: n in s ==> |Visible(s[n].Keys)| <= MAX_VERSIONS
  }

  predicate HasGoodNames(trust: Trust, s: Store) {
    forall n :: n in s && !IsHidden(n) ==> IsComponent(n) && n !in trust.builtins
  }

  ghost predicate IsStore(trust: Trust, s: Store, m: map<Key, Installed>) {
    Matches(trust, s, m) && IsSized(s) && HasGoodNames(trust, s)
  }

  function DirectoryOf(s: Store, name: Bytes): Directory {
    if name in s then s[name] else map[]
  }

  lemma AddName(trust: Trust, s: Store, m: map<Key, Installed>, name: Bytes)
    requires IsStore(trust, s, m) && IsComponent(name) && name !in trust.builtins
    requires !HasHidden(s.Keys) && (name in s || |s| < MAX_NAMES)
    ensures IsStore(trust, s[name := DirectoryOf(s, name)], m)
    ensures HasOrphans(s[name := DirectoryOf(s, name)]) <==> HasOrphans(s)
  {
    hide VerifyInstalled, HasOrphans, HasHidden;
    var t := s[name := DirectoryOf(s, name)];
    if name in s {
      assert t == s;
    } else {
      NewNameIsSized(s, name);
      SameOrphans(s, name, map[]);
      forall k: Key
        ensures IsLive(t, k) <==> IsLive(s, k)
      {
      }
    }
  }

  lemma NewNameIsSized(s: Store, name: Bytes)
    requires IsSized(s) && !HasHidden(s.Keys) && |s| < MAX_NAMES && name !in s
    ensures IsSized(s[name := map[]])
  {
    var t: Store := s[name := map[]];
    assert Visible(t.Keys) <= s.Keys + {name};
    Smaller(Visible(t.Keys), s.Keys + {name});
    assert |s.Keys| == |s|;
    assert Visible(t[name].Keys) == {};
  }

  /** A name directory that keeps its hidden entries neither makes nor removes an orphan. */
  lemma SameOrphans(s: Store, name: Bytes, d: Directory)
    requires !IsHidden(name)
    requires forall v :: IsHidden(v) ==> (v in d <==> name in s && v in s[name])
    ensures HasOrphans(s[name := d]) <==> HasOrphans(s)
  {
    hide IsHidden;
    var t := s[name := d];
    assert HasHidden(t.Keys) <==> HasHidden(s.Keys) by {
      assert forall n :: n in t.Keys && IsHidden(n) ==> n in s.Keys;
    }
    forall n | n in t && HasHidden(t[n].Keys)
      ensures n in s && HasHidden(s[n].Keys)
    {
      var v :| v in t[n].Keys && IsHidden(v);
      assert n in s && v in s[n].Keys;
    }
    forall n | n in s && HasHidden(s[n].Keys)
      ensures n in t && HasHidden(t[n].Keys)
    {
      var v :| v in s[n].Keys && IsHidden(v);
      assert n in t && v in t[n].Keys;
    }
  }

  lemma HiddenIsOrphan(s: Store, name: Bytes, entry: Bytes)
    requires name in s && entry in s[name] && IsHidden(entry)
    ensures HasOrphans(s)
  {
    hide IsHidden;
    assert entry in s[name].Keys;
    assert HasHidden(s[name].Keys);
  }

  lemma Smaller<T>(a: set<T>, b: set<T>)
    requires a <= b
    ensures |a| <= |b|
  {
    assert b == a + (b - a);
  }

  /** Hidden entries of a name directory may come, change and go without any effect on the map. */
  lemma ChangeHidden(trust: Trust, s: Store, m: map<Key, Installed>, name: Bytes, d: Directory)
    requires IsStore(trust, s, m) && name in s
    requires forall v :: !IsHidden(v) ==> (v in d <==> v in s[name])
    requires forall v :: !IsHidden(v) && v in d ==> d[v] == s[name][v]
    ensures IsStore(trust, s[name := d], m)
  {
    hide VerifyInstalled, IsComponent;
    var t := s[name := d];
    assert t.Keys == s.Keys;
    assert Visible(d.Keys) == Visible(s[name].Keys);
    forall k: Key
      ensures IsLive(t, k) <==> IsLive(s, k)
      ensures IsLive(t, k) ==> t[k.name][k.version] == s[k.name][k.version]
    {
    }
  }

  lemma Publish(trust: Trust, s: Store, m: map<Key, Installed>, name: Bytes, d: Directory, profile: Installed, files: Installation)
    requires IsStore(trust, s, m) && name in s && name == profile.key.name
    requires !HasHidden(d.Keys) && |d| < MAX_VERSIONS && profile.key.version !in d
    requires forall v :: v in d <==> v in s[name] && !IsHidden(v)
    requires forall v :: v in d ==> d[v] == s[name][v]
    requires VerifyInstalled(trust, profile.key, files) == Some(profile)
    ensures profile.key !in m
    ensures IsStore(trust, s[name := d[profile.key.version := files]], m[profile.key := profile])
  {
    hide VerifyInstalled, IsComponent, IsSized;
    var key := profile.key;
    AllowedIsVisible(trust, key, files);
    var e := d[key.version := files];
    var t := s[name := e];
    PublishedIsSized(s, name, d, key.version, files);
    assert t.Keys == s.Keys;
    forall k: Key
      ensures IsLive(t, k) <==> IsLive(s, k) || k == key
      ensures IsLive(t, k) && k != key ==> t[k.name][k.version] == s[k.name][k.version]
    {
    }
  }

  lemma PublishedIsSized(s: Store, name: Bytes, d: Directory, version: Bytes, files: Installation)
    requires IsSized(s) && name in s && |d| < MAX_VERSIONS
    ensures IsSized(s[name := d[version := files]])
  {
    var e := d[version := files];
    var t := s[name := e];
    assert t.Keys == s.Keys;
    assert Visible(e.Keys) <= d.Keys + {version};
    Smaller(Visible(e.Keys), d.Keys + {version});
    assert |d.Keys| == |d|;
  }

  lemma LiveIffReplayed(trust: Trust, s: Store, m: map<Key, Installed>, k: Key)
    requires IsStore(trust, s, m)
    ensures k in m <==> IsLive(s, k)
  {
  }

  lemma LiveVerifies(trust: Trust, s: Store, m: map<Key, Installed>, k: Key)
    requires IsStore(trust, s, m) && IsLive(s, k)
    ensures k in m && VerifyInstalled(trust, k, s[k.name][k.version]) == Some(m[k])
    ensures m[k].key == k && IsComponent(k.version)
  {
    assert VerifyInstalled(trust, k, s[k.name][k.version]).Some?;
  }

  lemma AllowedKey(trust: Trust, key: Key)
    requires IsAllowed(trust, key)
    ensures !IsHidden(key.name) && !IsHidden(key.version)
  {
  }

  lemma GenuineKey(trust: Trust, p: Package)
    requires IsGenuine(trust, p)
    ensures IsComponent(p.envelope.name) && p.envelope.name !in trust.builtins
    ensures !IsHidden(p.envelope.name) && !IsHidden(p.envelope.version)
  {
  }

  lemma AllowedIsVisible(trust: Trust, key: Key, files: Installation)
    requires VerifyInstalled(trust, key, files).Some?
    ensures !IsHidden(key.name) && !IsHidden(key.version)
  {
  }

  lemma Withdraw(trust: Trust, s: Store, m: map<Key, Installed>, key: Key, d: Directory)
    requires IsStore(trust, s, m) && IsLive(s, key)
    requires forall v :: !IsHidden(v) ==> (v in d <==> v in s[key.name] && v != key.version)
    requires forall v :: !IsHidden(v) && v in d ==> d[v] == s[key.name][v]
    ensures key in m
    ensures IsStore(trust, s[key.name := d], m - {key})
  {
    hide VerifyInstalled, IsComponent, IsSized;
    var t := s[key.name := d];
    assert t.Keys == s.Keys;
    WithdrawnIsSized(s, key.name, d);
    forall k: Key
      ensures IsLive(t, k) <==> IsLive(s, k) && k != key
      ensures IsLive(t, k) ==> t[k.name][k.version] == s[k.name][k.version]
    {
    }
  }

  lemma WithdrawnIsSized(s: Store, name: Bytes, d: Directory)
    requires IsSized(s) && name in s && forall v :: !IsHidden(v) && v in d ==> v in s[name]
    ensures IsSized(s[name := d])
  {
    Smaller(Visible(d.Keys), Visible(s[name].Keys));
    assert s[name := d].Keys == s.Keys;
  }

  lemma DropKeepsOrphans(s: Store, name: Bytes)
    requires name in s && s[name] == map[] && !IsHidden(name)
    ensures HasOrphans(s - {name}) <==> HasOrphans(s)
  {
    hide IsHidden;
    var t := s - {name};
    assert forall n :: n in t <==> n in s && n != name;
    assert HasHidden(t.Keys) <==> HasHidden(s.Keys) by {
      assert forall n :: n in s.Keys && IsHidden(n) ==> n in t.Keys;
    }
    assert !HasHidden(s[name].Keys);
    forall n | n in s && HasHidden(s[n].Keys)
      ensures n in t && t[n] == s[n]
    {
    }
    forall n | n in t && HasHidden(t[n].Keys)
      ensures n in s && t[n] == s[n]
    {
    }
  }

  lemma DropName(trust: Trust, s: Store, m: map<Key, Installed>, name: Bytes)
    requires IsStore(trust, s, m) && name in s && s[name] == map[]
    ensures IsStore(trust, s - {name}, m)
  {
    hide VerifyInstalled, IsComponent;
    var t := s - {name};
    Smaller(Visible(t.Keys), Visible(s.Keys));
    forall k: Key
      ensures IsLive(t, k) <==> IsLive(s, k)
    {
    }
  }

  // ---------------------------------------------------------------------------------------------
  // Listing directories
  // ---------------------------------------------------------------------------------------------

  ghost predicate IsAscending(names: seq<Bytes>) {
    forall i, j :: 0 <= i < j < |names| ==> names[i] != names[j] && BytesLe(names[i], names[j])
  }

  lemma SortedNames(names: seq<Bytes>)
    requires forall i, j :: 0 <= i < j < |names| ==> names[i] != names[j]
    ensures var r := Sort(names, Manifest.BytesLeq);
            IsAscending(r) && |r| == |names| && forall x :: x in r <==> x in names
  {
    var r := Sort(names, Manifest.BytesLeq);
    Manifest.BytesLeqIsPreorder();
    SortSorts(names, Manifest.BytesLeq);
    SortPermutes(names, Manifest.BytesLeq);
    MembersOfPermutation(r, names);
    forall i, j | 0 <= i < j < |names|
      ensures !(Manifest.BytesLeq(names[i], names[j]) && Manifest.BytesLeq(names[j], names[i]))
    {
      BytesLeTotal(names[i], names[j]);
    }
    SeparatedIsPermutationInvariant(names, r, Manifest.BytesLeq);
    forall i, j | 0 <= i < j < |r|
      ensures r[i] != r[j] && BytesLe(r[i], r[j])
    {
      assert Manifest.BytesLeq(r[i], r[j]) && !Manifest.BytesLeq(r[j], r[i]);
    }
  }

  /** The entries in whatever order the directory yields them, then sorted. */
  method SortedEntries(entries: set<Bytes>) returns (names: seq<Bytes>)
    ensures IsAscending(names) && |names| == |entries|
    ensures forall x :: x in names <==> x in entries
  {
    names := [];
    var rest := entries;
    while rest != {}
      invariant rest <= entries && |names| + |rest| == |entries|
      invariant forall x :: x in names <==> x in entries && x !in rest
      invariant forall i, j :: 0 <= i < j < |names| ==> names[i] != names[j]
    {
      var name :| name in rest;
      names := names + [name];
      rest := rest - {name};
    }
    SortedNames(names);
    names := Sort(names, Manifest.BytesLeq);
  }

  method EnforceNameLimit(s: Store, name: Bytes) returns (ok: bool)
    ensures ok <==> !HasHidden(s.Keys) && (name in s || |s| < MAX_NAMES)
  {
    hide IsHidden, BytesLe;
    var entries := SortedEntries(s.Keys);
    var names := {};
    for i := 0 to |entries|
      invariant |names| == i && names <= s.Keys
      invariant forall j :: 0 <= j < i ==> entries[j] in names && !IsHidden(entries[j])
      invariant forall j :: i <= j < |entries| ==> entries[j] !in names
    {
      if IsHidden(entries[i]) {
        return false;
      }
      names := names + {entries[i]};
    }
    assert names == s.Keys;
    ok := name in names || |names| < MAX_NAMES;
  }

  method EnforceVersionLimit(d: Directory) returns (ok: bool)
    ensures ok <==> !HasHidden(d.Keys) && |d| < MAX_VERSIONS
  {
    var entries := SortedEntries(d.Keys);
    var versions := 0;
    for i := 0 to |entries|
      invariant versions == i && forall j :: 0 <= j < i ==> !IsHidden(entries[j])
    {
      if IsHidden(entries[i]) {
        return false;
      }
      versions := versions + 1;
    }
    ok := versions < MAX_VERSIONS;
  }

  // ---------------------------------------------------------------------------------------------
  // The store object
  // ---------------------------------------------------------------------------------------------

  predicate KeyLess(a: Key, b: Key) {
    if a.name == b.name then a.version != b.version && BytesLe(a.version, b.version)
    else BytesLe(a.name, b.name)
  }

  /** Exactly the entries of `m`, each once, in lexicographic order. */
  ghost predicate IsListing(profiles: seq<Installed>, m: map<Key, Installed>) {
    && (forall i, j :: 0 <= i < j < |profiles| ==> KeyLess(profiles[i].key, profiles[j].key))
    && (forall p: Installed :: p in profiles <==> p.key in m && m[p.key] == p)
  }

  /** The same for the entries of some names only. */
  ghost predicate IsPartial(profiles: seq<Installed>, names: seq<Bytes>, m: map<Key, Installed>) {
    && (forall i, j :: 0 <= i < j < |profiles| ==> KeyLess(profiles[i].key, profiles[j].key))
    && (forall p: Installed :: p in profiles <==> p.key in m && m[p.key] == p && p.key.name in names)
  }

  lemma EmptyPartial(m: map<Key, Installed>)
    ensures IsPartial([], [], m)
  {
  }

  lemma NothingListed(trust: Trust, m: map<Key, Installed>)
    requires IsStore(trust, map[], m)
    ensures IsListing([], m) && !HasOrphans(map[])
  {
  }

  lemma WholeListing(trust: Trust, s: Store, m: map<Key, Installed>, names: seq<Bytes>, profiles: seq<Installed>)
    requires IsStore(trust, s, m) && IsPartial(profiles, names, m) && forall n :: n in names <==> n in s
    ensures IsListing(profiles, m)
  {
    hide VerifyInstalled, KeyLess;
    assert forall k :: k in m ==> IsLive(s, k);
  }

  lemma JoinPartial(a: seq<Installed>, b: seq<Installed>, names: seq<Bytes>, i: nat, m: map<Key, Installed>)
    requires i < |names| && IsAscending(names)
    requires IsPartial(a, names[..i], m) && IsPartial(b, [names[i]], m)
    ensures IsPartial(a + b, names[..i + 1], m)
  {
    hide BytesLe;
    forall j, k | 0 <= j < |a| && 0 <= k < |b|
      ensures KeyLess(a[j].key, b[k].key)
    {
      assert a[j] in a && b[k] in b;
    }
    assert names[..i + 1] == names[..i] + [names[i]];
  }

  lemma FewVersions(trust: Trust, s: Store, m: map<Key, Installed>, name: Bytes)
    requires IsStore(trust, s, m) && name in s && !HasHidden(s[name].Keys)
    ensures |s[name].Keys| <= MAX_VERSIONS
  {
    assert Visible(s[name].Keys) == s[name].Keys;
  }

  lemma OneName(trust: Trust, s: Store, m: map<Key, Installed>, name: Bytes, versions: seq<Bytes>, profiles: seq<Installed>)
    requires IsAscending(versions) && |profiles| == |versions|
    requires IsStore(trust, s, m)
    requires name in s && forall v :: v in versions <==> v in s[name]
    requires forall j :: 0 <= j < |versions| ==>
               IsLive(s, Key(name, versions[j])) && profiles[j] == m[Key(name, versions[j])]
               && profiles[j].key == Key(name, versions[j])
    ensures IsPartial(profiles, [name], m)
  {
    hide BytesLe, VerifyInstalled, IsSized, HasGoodNames;
    forall p: Installed | p.key in m && m[p.key] == p && p.key.name == name
      ensures p in profiles
    {
      assert IsLive(s, p.key);
      assert p.key.version in versions;
      var j :| 0 <= j < |versions| && versions[j] == p.key.version;
      assert profiles[j] == p;
    }
  }

  datatype InstallResult = InstalledNow(profile: Installed) | NotInstalled
  datatype RemoveResult = Removed | WasAbsent | NotRemoved
  datatype ListError = OrphanEntry | UnlistableEntry | ListingRefused
  datatype ListResult = Listed(profiles: seq<Installed>) | NotListed(error: ListError)

  const INSTALL_PREFIX: Bytes := [46, 105, 110, 115, 116, 97, 108, 108, 45]
  const REMOVE_PREFIX: Bytes := [46, 114, 101, 109, 111, 118, 101, 45]

  lemma TombstoneIsHidden(suffix: Bytes)
    ensures IsHidden(REMOVE_PREFIX + suffix)
  {
  }

  /** Nothing stands in the way of publishing under this key. */
  predicate HasRoom(s: Store, key: Key) {
    && !HasHidden(s.Keys) && (key.name in s || |s| < MAX_NAMES)
    && !HasHidden(DirectoryOf(s, key.name).Keys) && |DirectoryOf(s, key.name)| < MAX_VERSIONS
    && key.version !in DirectoryOf(s, key.name)
  }

  /** The same on bytes: nothing starts with a dot, 64 names and 64 versions are the limits, and the version
      is not there. */
  ghost predicate IsFreePlace(s: Store, name: Bytes, version: Bytes) {
    && (forall n :: n in s ==> n == [] || n[0] != 46)
    && (name in s || |s| < 64)
    && (name in s ==> version !in s[name] && |s[name]| < 64 && forall v :: v in s[name] ==> v == [] || v[0] != 46)
  }

  lemma RoomMeans(s: Store, key: Key)
    ensures HasRoom(s, key) <==> IsFreePlace(s, key.name, key.version)
  {
  }

  /** Something starts with a dot. */
  ghost predicate HasDotEntry(s: Store) {
    || (exists n :: n in s && n != [] && n[0] == 46)
    || (exists n, v :: n in s && v in s[n] && v != [] && v[0] == 46)
  }

  lemma OrphansMean(s: Store)
    ensures HasOrphans(s) <==> HasDotEntry(s)
  {
    assert HasHidden(s.Keys) <==> exists n :: n in s && n != [] && n[0] == 46;
    forall n | n in s
      ensures HasHidden(s[n].Keys) <==> exists v :: v in s[n] && v != [] && v[0] == 46
    {
    }
  }

  /** What is recorded of an installed package. */
  ghost predicate IsRecordOf(p: Package, now: int, profile: Installed) {
    && profile.key.name == p.envelope.name && profile.key.version == p.envelope.version && profile.envelope == p.envelope
    && profile.manifest.schemaVersion == 1 && profile.manifest.key == profile.key && profile.manifest.installedAt == now
    && profile.manifest.packageSha256 == Manifest.Sha256(p.bytes) && profile.manifest.packageBytes == |p.bytes|
    && profile.manifest.fingerprint == p.fingerprint
  }

  /** The four files of an installed package, the two hexadecimal texts with a line end. */
  ghost predicate HoldsPackage(s: Store, p: Package, manifest: InstallManifest) {
    && p.envelope.name in s && p.envelope.version in s[p.envelope.name]
    && s[p.envelope.name][p.envelope.version]
       == map[PackageFile := Raw(p.bytes), SignatureFile := Raw(p.signature + [10]),
              PublicKeyFile := Raw(p.publicKey + [10]), ManifestFile := Document(manifest)]
  }

  lemma ProfileMeans(p: Package, now: int)
    ensures IsRecordOf(p, now, ProfileOf(p, now))
    ensures ProfileOf(p, now).manifest == ManifestOf(p, now)
  {
  }

  lemma PackageIsHeld(s: Store, p: Package, now: int)
    requires p.envelope.name in s && p.envelope.version in s[p.envelope.name]
    requires s[p.envelope.name][p.envelope.version] == FilesOf(p, now)
    ensures HoldsPackage(s, p, ProfileOf(p, now).manifest)
  {
  }

  /** The order of a listing: by name, then by version. */
  ghost predicate IsKeyBefore(a: Key, b: Key) {
    if a.name == b.name then a.version != b.version && IsBefore(a.version, b.version) else IsBefore(a.name, b.name)
  }

  lemma KeyLessMeans(a: Key, b: Key)
    ensures KeyLess(a, b) <==> IsKeyBefore(a, b)
  {
    hide BytesLe, IsBefore;
    BytesLeMeans(a.name, b.name);
    BytesLeMeans(a.version, b.version);
  }

  /** A listing read off the directory tree: every entry of every name once, in order, and intact. */
  ghost predicate IsTrueListing(profiles: seq<Installed>, trust: Trust, s: Store) {
    && (forall i, j :: 0 <= i < j < |profiles| ==> IsKeyBefore(profiles[i].key, profiles[j].key))
    && (forall p :: p in profiles ==>
          && p.key.name in s && p.key.version in s[p.key.name]
          && IsIntact(trust, p.key, s[p.key.name][p.key.version], p))
    && (forall n, v :: n in s && v in s[n] ==> exists i :: 0 <= i < |profiles| && profiles[i].key == Key(n, v))
  }

  lemma ListingIsTrue(trust: Trust, s: Store, m: map<Key, Installed>, profiles: seq<Installed>)
    requires IsStore(trust, s, m) && IsListing(profiles, m) && !HasOrphans(s)
    ensures IsTrueListing(profiles, trust, s)
  {
    hide VerifyInstalled, IsIntact, IsKeyBefore, KeyLess, IsSized, HasGoodNames;
    forall i, j | 0 <= i < j < |profiles|
      ensures IsKeyBefore(profiles[i].key, profiles[j].key)
    {
      KeyLessMeans(profiles[i].key, profiles[j].key);
    }
    forall p | p in profiles
      ensures p.key.name in s && p.key.version in s[p.key.name]
      ensures IsIntact(trust, p.key, s[p.key.name][p.key.version], p)
    {
      assert IsLive(s, p.key);
      VerifyMeans(trust, p.key, s[p.key.name][p.key.version], p);
    }
    forall n, v | n in s && v in s[n]
      ensures exists i :: 0 <= i < |profiles| && profiles[i].key == Key(n, v)
    {
      EntryIsListed(trust, s, m, profiles, Key(n, v));
    }
  }

  lemma EntryIsListed(trust: Trust, s: Store, m: map<Key, Installed>, profiles: seq<Installed>, key: Key)
    requires IsStore(trust, s, m) && IsListing(profiles, m) && !HasOrphans(s)
    requires key.name in s && key.version in s[key.name]
    ensures exists i :: 0 <= i < |profiles| && profiles[i].key == key
  {
    hide VerifyInstalled, KeyLess, IsSized, HasGoodNames, IsHidden;
    assert key.name in s.Keys && key.version in s[key.name].Keys;
    assert !HasHidden(s[key.name].Keys);
    assert IsLive(s, key);
    LiveVerifies(trust, s, m, key);
    assert m[key] in profiles;
  }

  class ProfileStore {
    const trust: Trust
    var present: bool
    var store: Store
    /** Every publication and withdrawal so far. */
    ghost var history: seq<Event>
    /** The number of system calls that were refused. */
    ghost var faults: nat
    /** The number of hidden directories left behind by installations and removals: a clean-up was refused,
        or the inspection of a tombstone was. */
    ghost var residues: nat

    ghost predicate Valid()
      reads this
    {
      && IsStore(trust, store, Replayed(history)) && NeverOverwrites(history)
      && (!present ==> store == map[])
    }

    constructor (trust: Trust)
      ensures Valid() && this.trust == trust && history == [] && faults == 0 && residues == 0 && !HasOrphans(store)
    {
      this.trust := trust;
      present, store, history, faults, residues := false, map[], [], 0, 0;
    }

    method Attempt() returns (ok: bool)
      modifies this`faults
      ensures ok ==> faults == old(faults)
      ensures !ok ==> faults == old(faults) + 1
    {
      ok := *;
      if !ok {
        faults := faults + 1;
      }
    }

    /** Changes one hidden entry of a name directory. */
    method PutHidden(name: Bytes, entry: Bytes, files: Installation)
      requires Valid() && name in store && IsHidden(entry)
      modifies this`store
      ensures Valid() && store == old(store)[name := old(store)[name][entry := files]]
    {
      ChangeHidden(trust, store, Replayed(history), name, store[name][entry := files]);
      store := store[name := store[name][entry := files]];
    }

    method DropHidden(name: Bytes, entry: Bytes)
      requires Valid() && name in store && IsHidden(entry)
      modifies this`store
      ensures Valid() && store == old(store)[name := old(store)[name] - {entry}]
    {
      ChangeHidden(trust, store, Replayed(history), name, store[name] - {entry});
      store := store[name := store[name] - {entry}];
    }

    /** Removes a temporary directory as far as the system lets it. */
    method Discard(name: Bytes, entry: Bytes) returns (ok: bool)
      requires Valid() && name in store && IsHidden(entry)
      modifies this`store, this`faults, this`residues
      ensures Valid()
      ensures if ok then faults == old(faults) && residues == old(residues) else faults == old(faults) + 1 && residues == old(residues) + 1
      ensures ok ==> store == old(store)[name := old(store)[name] - {entry}]
      ensures !ok ==> HasOrphans(store)
    {
      hide IsStore, NeverOverwrites, Replayed, IsHidden, HasOrphans;
      ok := Attempt();
      if ok {
        DropHidden(name, entry);
      } else {
        var left: Installation := *;
        PutHidden(name, entry, left);
        HiddenIsOrphan(store, name, entry);
        residues := residues + 1;
      }
    }

    /** Adds one file to a temporary directory of `s` that holds the files `before`. */
    method WriteFile(ghost s: Store, name: Bytes, entry: Bytes, ghost before: Installation, file: FileName, content: StoredFile)
      returns (ok: bool)
      requires Valid() && name in s && store == s[name := s[name][entry := before]] && IsHidden(entry)
      modifies this`store, this`faults
      ensures Valid() && if ok then faults == old(faults) else faults > old(faults)
      ensures store == if ok then s[name := s[name][entry := before[file := content]]] else old(store)
    {
      hide IsStore, NeverOverwrites, Replayed, IsHidden;
      ok := Attempt();
      if ok {
        assert store[name][entry] == before;
        assert store[name][entry := before[file := content]] == s[name][entry := before[file := content]];
        PutHidden(name, entry, store[name][entry][file := content]);
      }
    }

    /** Writes the four files of an installation into an empty temporary directory. */
    method FillTemporary(name: Bytes, entry: Bytes, p: Package, now: int) returns (ok: bool)
      requires Valid() && name in store && entry in store[name] && store[name][entry] == map[] && IsHidden(entry)
      modifies this`store, this`faults
      ensures Valid() && name in store && entry in store[name]
      ensures if ok then faults == old(faults) else faults > old(faults)
      ensures store == old(store)[name := old(store)[name][entry := store[name][entry]]]
      ensures ok ==> store[name][entry] == FilesOf(p, now)
    {
      hide IsStore, NeverOverwrites, Replayed, IsHidden;
      ghost var s, written: Installation := store, map[];
      assert s[name][entry := written] == s[name];
      ok := WriteFile(s, name, entry, written, PackageFile, Raw(p.bytes));
      if ok {
        written := written[PackageFile := Raw(p.bytes)];
        ok := WriteFile(s, name, entry, written, SignatureFile, Raw(p.signature + [NEWLINE]));
      }
      if ok {
        written := written[SignatureFile := Raw(p.signature + [NEWLINE])];
        ok := WriteFile(s, name, entry, written, PublicKeyFile, Raw(p.publicKey + [NEWLINE]));
      }
      if ok {
        written := written[PublicKeyFile := Raw(p.publicKey + [NEWLINE])];
        ok := WriteFile(s, name, entry, written, ManifestFile, Document(ManifestOf(p, now)));
      }
      assert written[ManifestFile := Document(ManifestOf(p, now))] == FilesOf(p, now) || !ok;
    }

    /** Checks the limits and makes sure that the name directory exists. */
    method MakeRoom(key: Key) returns (ok: bool)
      requires Valid() && IsComponent(key.name) && key.name !in trust.builtins
      modifies this`present, this`store, this`faults
      ensures Valid() && faults >= old(faults) && (HasOrphans(store) <==> old(HasOrphans(store)))
      ensures ok ==> faults == old(faults) && HasRoom(old(store), key)
                     && store == old(store)[key.name := DirectoryOf(old(store), key.name)]
      ensures !ok && faults == old(faults) ==> !HasRoom(old(store), key)
    {
      hide IsStore, NeverOverwrites, Replayed, IsHidden, HasHidden, HasOrphans, IsComponent;
      ok := Attempt();
      if !ok {
        return;
      }
      present := true;
      ok := EnforceNameLimit(store, key.name);
      if !ok {
        return;
      }
      ok := Attempt();
      if !ok {
        return;
      }
      AddName(trust, store, Replayed(history), key.name);
      store := store[key.name := DirectoryOf(store, key.name)];
      ok := EnforceVersionLimit(store[key.name]);
      ok := ok && key.version !in store[key.name];
    }

    /** Stages a checked package beside its destination and renames it into place: everything before
        the rename leaves the map as it was. */
    method PublishPackage(p: Package, now: int, suffix: Bytes) returns (r: InstallResult)
      requires Valid() && IsGenuine(trust, p)
      modifies this
      ensures Valid() && faults >= old(faults)
      ensures r.InstalledNow? ==>
                && r.profile == ProfileOf(p, now) && history == old(history) + [Published(r.profile)]
                && HoldsPackage(store, p, r.profile.manifest)
      ensures r.NotInstalled? ==>
                || history == old(history)
                || (faults > old(faults) && history == old(history) + [Published(ProfileOf(p, now))])
      ensures HasOrphans(store) <==> old(HasOrphans(store)) || residues > old(residues)
      ensures residues >= old(residues) && (residues > old(residues) ==> faults >= old(faults) + 2 && history == old(history))
      ensures faults == old(faults) ==> (r.InstalledNow? <==> HasRoom(old(store), KeyOf(p.envelope)))
    {
      hide IsStore, NeverOverwrites, Replayed, HasOrphans, IsComponent, IsGenuine, FilesOf, HoldsPackage;
      r := NotInstalled;
      GenuineKey(trust, p);
      var ok := MakeRoom(KeyOf(p.envelope));
      if !ok {
        return;
      }
      var name, temporary := p.envelope.name, INSTALL_PREFIX + suffix;
      assert IsHidden(temporary);
      var d := store[name];
      ok := Attempt();
      if !ok {
        return;
      }
      ok := StageAndRename(p, now, temporary);
      if ok {
        r := InstalledNow(ProfileOf(p, now));
      }
    }

    /** Creates a temporary directory, fills it and renames it to its version. */
    method StageAndRename(p: Package, now: int, temporary: Bytes) returns (ok: bool)
      requires Valid() && IsGenuine(trust, p) && IsHidden(temporary) && !IsHidden(p.envelope.name)
      requires p.envelope.name in store && !HasHidden(store[p.envelope.name].Keys) && !IsHidden(p.envelope.version)
      requires |store[p.envelope.name]| < MAX_VERSIONS && p.envelope.version !in store[p.envelope.name]
      modifies this
      ensures Valid() && if ok then faults == old(faults) else faults > old(faults)
      ensures history == old(history) || history == old(history) + [Published(ProfileOf(p, now))]
      ensures ok ==> history == old(history) + [Published(ProfileOf(p, now))]
      ensures ok ==> HoldsPackage(store, p, ProfileOf(p, now).manifest)
      ensures HasOrphans(store) <==> old(HasOrphans(store)) || residues > old(residues)
      ensures residues >= old(residues) && (residues > old(residues) ==> faults >= old(faults) + 2 && history == old(history))
    {
      hide IsStore, NeverOverwrites, Replayed, HasOrphans, IsGenuine, FilesOf, HoldsPackage;
      var name := p.envelope.name;
      var d := store[name];
      ghost var s := store;
      assert temporary !in d.Keys;
      ok := Stage(name, p, now, temporary);
      if !ok {
        Abandon(s, name, temporary);
        return;
      }
      ok := Rename(p, now, d, temporary);
      SameOrphans(s, name, d[p.envelope.version := FilesOf(p, now)]);
      assert s[name := d[p.envelope.version := FilesOf(p, now)]] == store;
      PackageIsHeld(store, p, now);
    }

    /** Back to `s`, unless the system refuses. */
    method Abandon(ghost s: Store, name: Bytes, temporary: Bytes)
      requires Valid() && IsHidden(temporary) && name in s && temporary !in s[name]
      requires name in store && temporary in store[name] && store == s[name := s[name][temporary := store[name][temporary]]]
      modifies this`store, this`faults, this`residues
      ensures Valid() && faults == old(faults) + (residues - old(residues)) && residues >= old(residues)
      ensures if residues == old(residues) then store == s else HasOrphans(store)
    {
      hide IsStore, NeverOverwrites, Replayed, HasOrphans, IsHidden;
      assert store[name] - {temporary} == s[name];
      var discarded := Discard(name, temporary);
      assert discarded ==> store == s;
    }

    /** Everything before the rename. */
    method Stage(name: Bytes, p: Package, now: int, temporary: Bytes) returns (ok: bool)
      requires Valid() && IsHidden(temporary) && name in store && temporary !in store[name]
      modifies this`store, this`faults
      ensures Valid() && name in store && temporary in store[name]
      ensures if ok then faults == old(faults) else faults > old(faults)
      ensures store == old(store)[name := old(store)[name][temporary := store[name][temporary]]]
      ensures ok ==> store[name][temporary] == FilesOf(p, now)
    {
      hide IsStore, NeverOverwrites, Replayed, IsHidden, FilesOf;
      ghost var s := store;
      PutHidden(name, temporary, map[]);
      ok := FillTemporary(name, temporary, p, now);
      assert store[name] == s[name][temporary := store[name][temporary]];
      if ok {
        ok := Attempt();
      }
    }

    method Rename(p: Package, now: int, d: Directory, temporary: Bytes) returns (ok: bool)
      requires Valid() && IsGenuine(trust, p) && IsHidden(temporary) && p.envelope.name in store
      requires store[p.envelope.name] == d[temporary := FilesOf(p, now)]
      requires !HasHidden(d.Keys) && |d| < MAX_VERSIONS && p.envelope.version !in d
      modifies this`store, this`history, this`faults
      ensures Valid() && if ok then faults == old(faults) else faults > old(faults)
      ensures history == old(history) + [Published(ProfileOf(p, now))]
      ensures store == old(store)[p.envelope.name := d[p.envelope.version := FilesOf(p, now)]]
    {
      hide IsStore, NeverOverwrites, Replayed, IsGenuine, FilesOf, VerifyInstalled;
      var name, version := p.envelope.name, p.envelope.version;
      InstalledVerifies(trust, p, now);
      Publish(trust, store, Replayed(history), name, d, ProfileOf(p, now), FilesOf(p, now));
      ReplayPush(history, Published(ProfileOf(p, now)));
      store := store[name := d[version := FilesOf(p, now)]];
      history := history + [Published(ProfileOf(p, now))];
      ok := Attempt();
    }

    method Install(package: Bytes, signature: Bytes, publicKey: Bytes, fingerprint: Bytes, now: int, suffix: Bytes)
      returns (r: InstallResult)
      requires Valid()
      modifies this
      ensures Valid() && faults >= old(faults)
      ensures r.InstalledNow? ==>
                && history == old(history) + [Published(r.profile)]
                && exists p :: IsSigned(trust, package, signature, publicKey, fingerprint, p)
                               && IsRecordOf(p, now, r.profile) && HoldsPackage(store, p, r.profile.manifest)
      ensures r.NotInstalled? && history != old(history) ==>
                && faults > old(faults)
                && exists p, profile :: IsSigned(trust, package, signature, publicKey, fingerprint, p)
                                        && IsRecordOf(p, now, profile) && history == old(history) + [Published(profile)]
      ensures forall p :: IsSigned(trust, package, signature, publicKey, fingerprint, p) && faults == old(faults) ==>
                (r.InstalledNow? <==> IsFreePlace(old(store), p.envelope.name, p.envelope.version))
      ensures HasOrphans(store) <==> old(HasOrphans(store)) || residues > old(residues)
      ensures residues >= old(residues) && (residues > old(residues) ==> faults >= old(faults) + 2 && history == old(history))
    {
      hide CheckPackage, IsStore, IsGenuine, HasOrphans, IsSigned, IsRecordOf, HoldsPackage, HasRoom, IsFreePlace, ProfileOf;
      r := NotInstalled;
      var ok := Attempt();
      if !ok {
        return;
      }
      forall p
        ensures IsSigned(trust, package, signature, publicKey, fingerprint, p)
                <==> CheckPackage(trust, package, signature, publicKey, fingerprint) == Some(p)
      {
        CheckMeans(trust, package, signature, publicKey, fingerprint, p);
      }
      var p := CheckPackage(trust, package, signature, publicKey, fingerprint);
      if p.Some? {
        ProfileMeans(p.value, now);
        RoomMeans(store, KeyOf(p.value.envelope));
        r := PublishPackage(p.value, now, suffix);
      }
    }

    /** Removes one version, whatever its contents: it leaves the map when it is renamed aside. */
    method Remove(key: Key, suffix: Bytes) returns (r: RemoveResult)
      requires Valid()
      modifies this
      ensures Valid() && faults >= old(faults)
      ensures r.Removed? ==> history == old(history) + [Withdrawn(key)]
      ensures r.WasAbsent? ==> history == old(history) && store == old(store) && key !in Replayed(history)
      ensures r.NotRemoved? ==>
                || history == old(history)
                || (faults > old(faults) && history == old(history) + [Withdrawn(key)])
      ensures HasOrphans(store) <==> old(HasOrphans(store)) || residues > old(residues)
      ensures residues >= old(residues) && (residues > old(residues) ==> faults > old(faults) && history == old(history) + [Withdrawn(key)])
      ensures faults == old(faults) && IsAllowed(trust, key) && REMOVE_PREFIX + suffix !in old(DirectoryOf(store, key.name)) ==>
                (r.Removed? <==> key in old(Replayed(history))) && !r.NotRemoved?
    {
      hide IsStore, NeverOverwrites, Replayed, HasOrphans, IsComponent, IsHidden;
      r := NotRemoved;
      if !IsAllowed(trust, key) {
        return;
      }
      AllowedKey(trust, key);
      LiveIffReplayed(trust, store, Replayed(history), key);
      var ok := Attempt();
      if !ok {
        return;
      }
      if !present || key.name !in store || key.version !in store[key.name] {
        return WasAbsent;
      }
      var d := store[key.name];
      var tombstone := REMOVE_PREFIX + suffix;
      if tombstone in d {
        return;
      }
      ok := Attempt();
      if !ok {
        return;
      }
      TombstoneIsHidden(suffix);
      var files := d[key.version];
      MoveAside(key, tombstone);
      ok := Attempt();
      if !ok {
        PutBack(old(store), old(history), key, tombstone, files);
        return;
      }
      ok := Attempt();
      if !ok {
        // The tombstone cannot be inspected: it stays where it is.
        HiddenIsOrphan(store, key.name, tombstone);
        residues := residues + 1;
        return;
      }
      assert store[key.name := d] == old(store);
      ok := Erase(key, d, tombstone);
      if ok {
        r := Removed;
      }
    }

    /** The tombstone cannot be reopened: it gets its old name again if the system allows it. */
    method PutBack(ghost s: Store, ghost h: seq<Event>, key: Key, tombstone: Bytes, files: Installation)
      requires Valid() && IsStore(trust, s, Replayed(h)) && NeverOverwrites(h)
      requires IsLive(s, key) && files == s[key.name][key.version] && IsHidden(tombstone) && tombstone !in s[key.name]
      requires store == s[key.name := (s[key.name] - {key.version})[tombstone := files]]
      modifies this`store, this`history, this`faults, this`residues
      ensures Valid() && faults == old(faults) + (residues - old(residues)) && residues >= old(residues)
      ensures if residues == old(residues) then store == s && history == h else HasOrphans(store) && history == old(history)
    {
      hide IsStore, NeverOverwrites, Replayed, HasOrphans, IsHidden;
      var ok := Attempt();
      if ok {
        assert (store[key.name] - {tombstone})[key.version := files] == s[key.name];
        store := store[key.name := (store[key.name] - {tombstone})[key.version := files]];
        assert store == s;
        history := h;
      } else {
        HiddenIsOrphan(store, key.name, tombstone);
        residues := residues + 1;
      }
    }

    /** Renames a live version to a hidden name: from here on it is no longer in the map. */
    method MoveAside(key: Key, tombstone: Bytes)
      requires Valid() && IsLive(store, key) && IsHidden(tombstone) && tombstone !in store[key.name]
      modifies this`store, this`history
      ensures Valid() && history == old(history) + [Withdrawn(key)] && key in old(Replayed(history))
      ensures store == old(store)[key.name :=
                (old(store)[key.name] - {key.version})[tombstone := old(store)[key.name][key.version]]]
    {
      hide VerifyInstalled, IsComponent, IsSized;
      var d := (store[key.name] - {key.version})[tombstone := store[key.name][key.version]];
      Withdraw(trust, store, Replayed(history), key, d);
      ReplayPush(history, Withdrawn(key));
      store := store[key.name := d];
      history := history + [Withdrawn(key)];
    }

    /** Deletes a tombstone, and the name directory if nothing else is in it. */
    method Erase(key: Key, ghost d: Directory, tombstone: Bytes) returns (ok: bool)
      requires Valid() && key.name in store && IsHidden(tombstone) && !IsHidden(key.name)
      requires tombstone !in d && !IsHidden(key.version) && store[key.name] - {tombstone} == d - {key.version}
      modifies this`store, this`faults, this`residues
      ensures Valid() && faults >= old(faults) && (faults == old(faults) ==> ok)
      ensures !ok ==> faults > old(faults)
      ensures HasOrphans(store) <==> HasOrphans(old(store)[key.name := d]) || residues > old(residues)
      ensures residues >= old(residues) && (residues > old(residues) ==> faults > old(faults))
    {
      hide VerifyInstalled, IsComponent, IsStore, HasOrphans;
      ok := Discard(key.name, tombstone);
      if !ok {
        return;
      }
      SameOrphans(old(store)[key.name := d], key.name, store[key.name]);
      assert old(store)[key.name := d][key.name := store[key.name]] == store;
      ok := Attempt();
      if ok && store[key.name] == map[] {
        DropName(trust, store, Replayed(history), key.name);
        DropKeepsOrphans(store, key.name);
        store := store - {key.name};
      }
      ok := Attempt();
    }

    /** Lists what is installed, or refuses if anything hidden is found. */
    method List() returns (r: ListResult)
      requires Valid()
      modifies this`faults
      ensures Valid() && faults >= old(faults)
      ensures r.Listed? ==> IsListing(r.profiles, Replayed(history)) && !HasOrphans(store)
      ensures r.Listed? ==> IsTrueListing(r.profiles, trust, store)
      ensures r.NotListed? ==> if r.error == ListingRefused then faults > old(faults) else r.error == OrphanEntry && HasOrphans(store)
    {
      hide IsStore, NeverOverwrites, Replayed, IsPartial, IsHidden, BytesLe, IsTrueListing;
      r := NotListed(ListingRefused);
      var ok := Attempt();
      if !ok {
        return;
      }
      if !present {
        NothingListed(trust, Replayed(history));
        ListingIsTrue(trust, store, Replayed(history), []);
        return Listed([]);
      }
      var names := SortedEntries(store.Keys);
      var wrong := CheckNames(names);
      if wrong.Some? {
        return NotListed(wrong.value);
      }
      EmptyPartial(Replayed(history));
      assert names[..0] == [];
      var profiles: seq<Installed> := [];
      for i := 0 to |names|
        invariant faults == old(faults)
        invariant IsPartial(profiles, names[..i], Replayed(history))
        invariant forall j :: 0 <= j < i ==> !HasHidden(store[names[j]].Keys)
      {
        ok := Attempt();
        if !ok {
          return;
        }
        var more := ListName(names[i]);
        if more.NotListed? {
          return more;
        }
        JoinPartial(profiles, more.profiles, names, i, Replayed(history));
        profiles := profiles + more.profiles;
      }
      assert names[..|names|] == names;
      WholeListing(trust, store, Replayed(history), names, profiles);
      ListingIsTrue(trust, store, Replayed(history), profiles);
      r := Listed(profiles);
    }

    method CheckNames(names: seq<Bytes>) returns (wrong: Option<ListError>)
      requires Valid() && |names| == |store| && forall n :: n in names <==> n in store
      ensures wrong == if HasHidden(store.Keys) then Some(OrphanEntry) else None
    {
      hide IsComponent, Matches;
      for i := 0 to |names|
        invariant forall j :: 0 <= j < i ==> !IsHidden(names[j])
      {
        if IsHidden(names[i]) {
          return Some(OrphanEntry);
        }
        if !IsComponent(names[i]) || names[i] in trust.builtins {
          return Some(UnlistableEntry);
        }
      }
      assert Visible(store.Keys) == store.Keys;
      wrong := if |names| <= MAX_NAMES then None else Some(UnlistableEntry);
    }

    method ListName(name: Bytes) returns (r: ListResult)
      requires Valid() && name in store && !IsHidden(name)
      ensures r.Listed? <==> !HasHidden(store[name].Keys)
      ensures r.NotListed? ==> r.error == OrphanEntry
      ensures r.Listed? ==> IsPartial(r.profiles, [name], Replayed(history))
    {
      hide VerifyInstalled, IsComponent, BytesLe, IsStore, NeverOverwrites, Replayed, IsPartial;
      ghost var m := Replayed(history);
      var versions := SortedEntries(store[name].Keys);
      for i := 0 to |versions|
        invariant forall j :: 0 <= j < i ==> !IsHidden(versions[j])
      {
        if IsHidden(versions[i]) {
          return NotListed(OrphanEntry);
        }
        LiveVerifies(trust, store, m, Key(name, versions[i]));
        if !IsComponent(versions[i]) {
          return NotListed(UnlistableEntry);
        }
      }
      FewVersions(trust, store, m, name);
      if |versions| > MAX_VERSIONS {
        return NotListed(UnlistableEntry);
      }
      var profiles: seq<Installed> := [];
      for i := 0 to |versions|
        invariant |profiles| == i
        invariant forall j :: 0 <= j < i ==>
                    IsLive(store, Key(name, versions[j])) && Key(name, versions[j]) in m && profiles[j] == m[Key(name, versions[j])]
        invariant forall j :: 0 <= j < i ==> profiles[j].key == Key(name, versions[j])
      {
        LiveVerifies(trust, store, m, Key(name, versions[i]));
        var profile := VerifyInstalled(trust, Key(name, versions[i]), store[name][versions[i]]);
        if profile.None? {
          return NotListed(UnlistableEntry);
        }
        profiles := profiles + [profile.value];
      }
      OneName(trust, store, m, name, versions, profiles);
      r := Listed(profiles);
    }
  }

  // ---------------------------------------------------------------------------------------------
  // Whole runs
  // ---------------------------------------------------------------------------------------------

  function NamesOf(m: map<Key, Installed>): set<Bytes> {
    set k | k in m :: k.name
  }

  function VersionsOf(m: map<Key, Installed>, name: Bytes): set<Bytes> {
    set k | k in m && k.name == name :: k.version
  }

  /** Never more than 64 names, or 64 versions of one name. */
  lemma LimitsHold(trust: Trust, s: Store, m: map<Key, Installed>)
    requires IsStore(trust, s, m)
    ensures |NamesOf(m)| <= 64 && forall n :: |VersionsOf(m, n)| <= 64
  {
    hide VerifyInstalled, IsComponent, IsHidden;
    assert forall k :: k in m ==> IsLive(s, k);
    Smaller(NamesOf(m), Visible(s.Keys));
    forall n
      ensures |VersionsOf(m, n)| <= MAX_VERSIONS
    {
      if n in s {
        Smaller(VersionsOf(m, n), Visible(s[n].Keys));
      } else {
        assert VersionsOf(m, n) == {};
      }
    }
  }

  lemma KeyLessIsAsymmetric(a: Key, b: Key)
    requires KeyLess(a, b) && a != b
    ensures !KeyLess(b, a)
  {
    BytesLeTotal(a.name, b.name);
    BytesLeTotal(a.version, b.version);
  }

  /** A map has one listing only. */
  lemma {:induction false} ListingIsUnique(a: seq<Installed>, b: seq<Installed>, m: map<Key, Installed>)
    requires IsListing(a, m) && IsListing(b, m)
    ensures a == b
  {
    BothEmpty(a, b, m);
    BothEmpty(b, a, m);
    if a != [] {
      var x, y := a[|a| - 1], b[|b| - 1];
      SameLastProfile(a, b, m);
      DropLastProfile(a, m);
      DropLastProfile(b, m);
      ListingIsUnique(a[..|a| - 1], b[..|b| - 1], m - {x.key});
      assert a == a[..|a| - 1] + [x] && b == b[..|b| - 1] + [y];
    }
  }

  lemma BothEmpty(a: seq<Installed>, b: seq<Installed>, m: map<Key, Installed>)
    requires IsListing(a, m) && IsListing(b, m)
    ensures a != [] ==> b != []
  {
    if a != [] {
      assert a[0] in a;
      assert a[0] in b;
    }
  }

  lemma SameLastProfile(a: seq<Installed>, b: seq<Installed>, m: map<Key, Installed>)
    requires IsListing(a, m) && IsListing(b, m) && a != [] && b != []
    ensures a[|a| - 1] == b[|b| - 1]
  {
    hide KeyLess;
    var x, y := a[|a| - 1], b[|b| - 1];
    assert x in a && y in b;
    assert x in b && y in a;
    var i :| 0 <= i < |a| && a[i] == y;
    var j :| 0 <= j < |b| && b[j] == x;
    if x.key != y.key {
      KeyLessIsAsymmetric(y.key, x.key);
    }
  }

  lemma DropLastProfile(a: seq<Installed>, m: map<Key, Installed>)
    requires IsListing(a, m) && a != []
    ensures IsListing(a[..|a| - 1], m - {a[|a| - 1].key})
  {
    hide BytesLe;
    var front, last := a[..|a| - 1], a[|a| - 1];
    assert a == front + [last];
    forall i | 0 <= i < |front|
      ensures front[i].key != last.key
    {
      assert KeyLess(a[i].key, last.key);
    }
  }

  datatype Request =
    | InstallRequest(package: Bytes, signature: Bytes, publicKey: Bytes, fingerprint: Bytes, now: int, suffix: Bytes)
    | RemoveRequest(key: Key, suffix: Bytes)

  /** After any run of requests, each of which finishes or fails at any point: no request ever published
      over a live version, the limits hold, and the listing is the one listing of the map that the
      history describes. It is refused for an orphan exactly if a request left a hidden directory behind on
      the way, by a refused clean-up or a refused inspection of a tombstone, or there was an orphan to begin
      with. */
  method RunThenList(s: ProfileStore, requests: seq<Request>) returns (r: ListResult)
    requires s.Valid()
    modifies s
    ensures s.Valid() && NeverOverwrites(s.history)
    ensures |NamesOf(Replayed(s.history))| <= 64
    ensures forall n :: |VersionsOf(Replayed(s.history), n)| <= 64
    ensures r.Listed? ==> IsListing(r.profiles, Replayed(s.history))
    ensures r.Listed? ==> !old(HasOrphans(s.store)) && s.residues == old(s.residues)
    ensures !old(HasOrphans(s.store)) && s.residues == old(s.residues) ==> r.Listed? || r.error == ListingRefused
    ensures s.faults == old(s.faults) && !old(HasOrphans(s.store)) ==> r.Listed?
  {
    hide IsStore, Replayed, HasOrphans, IsListing, CheckPackage, HasRoom, DirectoryOf, IsAllowed, IsTrueListing, IsFreePlace, IsSigned, HoldsPackage;
    for i := 0 to |requests|
      invariant s.Valid() && s.faults >= old(s.faults) && s.residues >= old(s.residues)
      invariant s.residues > old(s.residues) ==> s.faults > old(s.faults)
      invariant HasOrphans(s.store) <==> old(HasOrphans(s.store)) || s.residues > old(s.residues)
    {
      match requests[i]
      case InstallRequest(package, signature, publicKey, fingerprint, now, suffix) =>
        var _ := s.Install(package, signature, publicKey, fingerprint, now, suffix);
      case RemoveRequest(key, suffix) =>
        var _ := s.Remove(key, suffix);
    }
    r := s.List();
    LimitsHold(s.trust, s.store, Replayed(s.history));
  }
}
