/**
 * The encrypted vault.  The cryptography is a parameter: a fingerprint of the
 * identity a key source names (none if it cannot be loaded), a key derived from
 * it and the salt, and an authenticated cipher.  Salts and nonces are arbitrary.
 */
module Vaults {
  import opened Bytes

  datatype Crypto = Crypto(
    fingerprint: string -> Option<string>,
    derive: (string, string) -> string,
    seal: (string, string, string) -> string,
    open: (string, string, string) -> Option<string>)

  /** Opening with the same key and nonce undoes sealing. */
  ghost predicate Lawful(c: Crypto) {
    forall key, nonce, text :: c.open(key, nonce, c.seal(key, nonce, text)) == Some(text)
  }

  datatype Sealed = Sealed(nonce: string, ciphertext: string)
  datatype VaultFile = VaultFile(salt: string, fingerprint: string, entries: map<string, Sealed>)

  function OpenedAt(c: Crypto, f: VaultFile, name: string, source: string): Option<string> {
    if name in f.entries && c.fingerprint(source) == Some(f.fingerprint)
    then c.open(c.derive(source, f.salt), f.entries[name].nonce, f.entries[name].ciphertext)
    else None
  }

  /** Everything `source` can read. */
  function Plaintexts(c: Crypto, f: VaultFile, source: string): map<string, string> {
    map name | name in f.entries && OpenedAt(c, f, name, source).Some? :: OpenedAt(c, f, name, source).value
  }

  class Vault {
    const c: Crypto
    var file: VaultFile

    constructor (c: Crypto, file: VaultFile)
      ensures this.c == c && this.file == file
    {
      this.c := c;
      this.file := file;
    }

    method Get(name: string, source: string) returns (r: Option<string>)
      ensures r == OpenedAt(c, file, name, source)
      ensures name !in file.entries || c.fingerprint(source) != Some(file.fingerprint) ==> r == None
      ensures name in file.entries && c.fingerprint(source) == Some(file.fingerprint) ==>
                r == c.open(c.derive(source, file.salt), file.entries[name].nonce, file.entries[name].ciphertext)
    {
      if name !in file.entries {
        return None;
      }
      if c.fingerprint(source) != Some(file.fingerprint) {
        return None;
      }
      var key := c.derive(source, file.salt);
      var entry := file.entries[name];
      r := c.open(key, entry.nonce, entry.ciphertext);
    }

    method Set(name: string, plaintext: string, source: string) returns (ok: bool)
      modifies this
      ensures ok <==> c.fingerprint(source) == Some(old(file).fingerprint)
      ensures !ok ==> file == old(file)
      ensures ok ==> file.salt == old(file).salt && file.fingerprint == old(file).fingerprint
      ensures ok ==> file.entries.Keys == old(file).entries.Keys + {name}
      ensures ok ==> forall n :: n in old(file).entries && n != name ==> file.entries[n] == old(file).entries[n]
      ensures ok && Lawful(c) ==> OpenedAt(c, file, name, source) == Some(plaintext)
    {
      if c.fingerprint(source) != Some(file.fingerprint) {
        return false;
      }
      var key := c.derive(source, file.salt);
      var nonce: string := *;
      file := file.(entries := file.entries[name := Sealed(nonce, c.seal(key, nonce, plaintext))]);
      ok := true;
    }

    /** Nothing is lost: every entry opens to the same text under the new identity. */
    method Rekey(oldSource: string, newSource: string) returns (ok: bool)
      modifies this
      ensures ok <==> c.fingerprint(newSource).Some?
                      && forall n :: n in old(file).entries ==> OpenedAt(c, old(file), n, oldSource).Some?
      ensures !ok ==> file.entries == old(file).entries
      ensures ok ==> file.entries.Keys == old(file).entries.Keys
                     && c.fingerprint(newSource) == Some(file.fingerprint)
      ensures ok && Lawful(c) ==> Plaintexts(c, file, newSource) == Plaintexts(c, old(file), oldSource)
    {
      ghost var before := file;
      var readable, plaintexts := ReadAll(oldSource);
      if !readable {
        return false;
      }
      var salt: string := *;
      file := file.(salt := salt);
      if c.fingerprint(newSource).None? {
        return false;
      }
      file := file.(fingerprint := c.fingerprint(newSource).value, entries := map[]);
      StoreAll(plaintexts, newSource);
      ok := true;
      if Lawful(c) {
        SameTexts(c, before, oldSource, file, newSource, plaintexts);
      }
    }

    method ReadAll(source: string) returns (ok: bool, plaintexts: map<string, string>)
      ensures ok <==> forall n :: n in file.entries ==> OpenedAt(c, file, n, source).Some?
      ensures ok ==> plaintexts.Keys == file.entries.Keys
      ensures ok ==> forall n :: n in plaintexts ==> OpenedAt(c, file, n, source) == Some(plaintexts[n])
    {
      plaintexts := map[];
      var names := file.entries.Keys;
      while names != {}
        invariant names <= file.entries.Keys && plaintexts.Keys == file.entries.Keys - names
        invariant forall n :: n in plaintexts ==> OpenedAt(c, file, n, source) == Some(plaintexts[n])
        decreases names
      {
        var name :| name in names;
        var text := Get(name, source);
        if text.None? {
          return false, map[];
        }
        plaintexts := plaintexts[name := text.value];
        names := names - {name};
      }
      ok := true;
    }

    method StoreAll(plaintexts: map<string, string>, source: string)
      requires c.fingerprint(source) == Some(file.fingerprint) && file.entries == map[]
      modifies this
      ensures file.salt == old(file).salt && file.fingerprint == old(file).fingerprint
      ensures file.entries.Keys == plaintexts.Keys
      ensures Lawful(c) ==> forall n :: n in plaintexts ==> OpenedAt(c, file, n, source) == Some(plaintexts[n])
    {
      var names := plaintexts.Keys;
      while names != {}
        invariant names <= plaintexts.Keys && file.entries.Keys == plaintexts.Keys - names
        invariant file.salt == old(file).salt && file.fingerprint == old(file).fingerprint
        invariant Lawful(c) ==> forall n :: n in file.entries ==> OpenedAt(c, file, n, source) == Some(plaintexts[n])
        decreases names
      {
        var name :| name in names;
        ghost var before := file;
        var ok := Set(name, plaintexts[name], source);
        names := names - {name};
        assert forall n :: n in before.entries ==> n != name && file.entries[n] == before.entries[n];
      }
    }
  }

  lemma SameTexts(c: Crypto, f: VaultFile, source: string, g: VaultFile, other: string, texts: map<string, string>)
    requires f.entries.Keys == texts.Keys && g.entries.Keys == texts.Keys
    requires forall n :: n in texts ==> OpenedAt(c, f, n, source) == Some(texts[n])
    requires forall n :: n in texts ==> OpenedAt(c, g, n, other) == Some(texts[n])
    ensures Plaintexts(c, g, other) == Plaintexts(c, f, source)
  {
    assert Plaintexts(c, f, source) == texts;
    assert Plaintexts(c, g, other) == texts;
  }

  lemma SetAddsText(c: Crypto, f: VaultFile, g: VaultFile, name: string, text: string, source: string)
    requires f.salt == g.salt && f.fingerprint == g.fingerprint && g.entries.Keys == f.entries.Keys + {name}
    requires forall n :: n in f.entries && n != name ==> g.entries[n] == f.entries[n]
    requires OpenedAt(c, g, name, source) == Some(text)
    ensures Plaintexts(c, g, source) == Plaintexts(c, f, source)[name := text]
  {
    forall n | n in f.entries && n != name
      ensures OpenedAt(c, g, n, source) == OpenedAt(c, f, n, source)
    {
      assert g.entries[n] == f.entries[n];
    }
  }
}
