/**
 * The digest computer of the monitor (`generateHash`, main.py:25-34).
 *
 * The SHA3-512 computation (section 6.1 of FIPS 202) is not modelled: the
 * caller passes it in as a total function from a file's text to its
 * `hexdigest()` rendering. The file system is a map from the paths that can be
 * opened, read and decoded as text to their text; a path missing from the map
 * is one whose `open`/`read` raises, which the source turns into the sentinel
 * string "ERROR!".
 */
module Digest {

  /** A digit as `hexdigest()` writes it: lower-case hexadecimal. */
  predicate IsHexDigit(c: char) {
    '0' <= c <= '9' || 'a' <= c <= 'f'
  }

  /** A SHA3-512 digest in hexadecimal: 64 bytes, so 128 digits. */
  predicate IsHexDigest(s: string) {
    |s| == 128 && forall i :: 0 <= i < |s| ==> IsHexDigit(s[i])
  }

  type HexDigest = s: string | IsHexDigest(s) witness seq(128, _ => '0')

  /** The string stored in place of a digest when a file cannot be read. */
  const ERROR: string := "ERROR!"

  /**
   * Never fails: the digest of the file's text when it can be read, the
   * sentinel otherwise. The sentinel is not a hexadecimal digest, so the
   * result is the sentinel exactly when the file is unreadable.
   */
  function GenerateHash(sha3: string -> HexDigest, readable: map<string, string>, path: string): (h: string)
    ensures h == ERROR <==> path !in readable
    ensures path in readable ==> h == sha3(readable[path])
    ensures IsHexDigest(h) || h == ERROR
  {
    if path in readable then sha3(readable[path]) else ERROR
  }

  /**
   * How two reads of the same path compare: two unreadable reads are equal,
   * a read that fails never equals one that succeeds, and two successful
   * reads are equal exactly when their digests are.
   */
  lemma HashesAgree(sha3: string -> HexDigest, before: map<string, string>, after: map<string, string>, path: string)
    ensures (GenerateHash(sha3, before, path) == GenerateHash(sha3, after, path)) <==>
            ((path !in before && path !in after) ||
             (path in before && path in after && sha3(before[path]) == sha3(after[path])))
  {
  }
}
