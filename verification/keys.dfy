/** `key add`, `key update` and `key list` (src/key.rs): a key is cut down
    to its first two tokens before it is fingerprinted and stored, so the
    stored key and its fingerprint always agree. */
module Keys {
  import opened Wrappers
  import Text
  import Prompt
  import opened Schema
  import Listing
  import IntParse
  import Fingerprint
  import Users

  /** Every stored key is in normal form and carries its own fingerprint. */
  predicate KeysValid(c: Fingerprint.Crypto, keys: set<SshKey>)
  {
    forall k :: k in keys ==>
      && |Text.Split(k.sshkey, ' ')| == 2
      && Fingerprint.Fingerprint(c, k.sshkey) == Ok(k.fingerprint)
  }

  /** Key ids are a unique column. */
  predicate KeyIdsUnique(keys: set<SshKey>)
  {
    forall k, l :: k in keys && l in keys && k != l ==> k.id != l.id
  }

  predicate UserExists(users: set<User>, email: string)
  {
    exists u :: u in users && u.email == email
  }

  /** A key answer as both commands read it: two tokens at least, then the
      normal form and its fingerprint. */
  function CheckKey(c: Fingerprint.Crypto, key: string): (r: Result<(string, string), string>)
    ensures r.Ok? <==> Fingerprint.Accepted(c, key)
    ensures |Text.Split(key, ' ')| < 2 ==> r == Err("Invalid key format.")
    ensures |Text.Split(key, ' ')| >= 2 && !Fingerprint.Accepted(c, key) ==> r == Err(Fingerprint.WrongFormat)
    ensures r.Ok? ==> |Text.Split(r.value.0, ' ')| == 2
    ensures r.Ok? ==> r.value.0 == Fingerprint.NormalizeKey(key)
    ensures r.Ok? ==> Fingerprint.Fingerprint(c, r.value.0) == Ok(r.value.1)
  {
    if |Text.Split(key, ' ')| < 2 then Err("Invalid key format.")
    else
      var normal := Fingerprint.NormalizeKey(key);
      Fingerprint.NormalizeIdempotent(key);
      Fingerprint.FingerprintOfNormalized(c, key);
      match Fingerprint.Fingerprint(c, normal)
      case Err(e) => Err(e)
      case Ok(fp) => Ok((normal, fp))
  }

  /** `key add`: the checks in the order the command makes them, then the new
      row for the user with that email. */
  function AddKey(c: Fingerprint.Crypto, users: set<User>, keys: set<SshKey>, newId: int,
                  email: string, key: string, comment: string): (r: Result<set<SshKey>, string>)
    requires Users.UsersUnique(users)
    requires forall k :: k in keys ==> k.id != newId
    ensures r.Ok? <==> email != "" && UserExists(users, email) && key != "" && Fingerprint.Accepted(c, key)
    ensures email == "" ==> r == Err("User email cannot be empty.")
    ensures email != "" && !UserExists(users, email) ==> r == Err("User not found.")
    ensures email != "" && UserExists(users, email) && key == "" ==> r == Err("Key cannot be empty.")
    ensures r.Ok? ==> keys <= r.value && |r.value| == |keys| + 1
    ensures r.Ok? ==> exists k :: (
      && r.value - keys == {k}
      && k.id == newId
      && k.sshkey == Fingerprint.NormalizeKey(key)
      && k.comment == Prompt.BlankOrNull(comment)
      && (exists u :: u in users && u.email == email && u.id == k.userId))
    ensures r.Ok? && KeysValid(c, keys) ==> KeysValid(c, r.value)
    ensures r.Ok? && KeyIdsUnique(keys) ==> KeyIdsUnique(r.value)
  {
    if email == "" then Err("User email cannot be empty.")
    else if !UserExists(users, email) then Err("User not found.")
    else if key == "" then Err("Key cannot be empty.")
    else match CheckKey(c, key)
      case Err(e) => Err(e)
      case Ok((normal, fp)) =>
        var u :| u in users && u.email == email;
        var k := SshKey(newId, u.id, normal, fp, Prompt.BlankOrNull(comment));
        assert k !in keys;
        assert (keys + {k}) - keys == {k};
        Ok(keys + {k})
  }

  /** The key answer of `update`: exactly empty reuses the stored key, which
      is then normalised and fingerprinted again like a new one. */
  function NewKey(answer: string, stored: string): (r: string)
    ensures answer == "" ==> r == stored
    ensures answer != "" ==> r == answer
  {
    if answer == "" then stored else answer
  }

  /** The row as `key update` rewrites it, or the command's error. */
  function RewriteKey(c: Fingerprint.Crypto, prev: SshKey, key: string, comment: string): (r: Result<SshKey, string>)
    ensures r.Ok? <==> Fingerprint.Accepted(c, NewKey(key, prev.sshkey))
    ensures r.Ok? ==> r.value == prev.(sshkey := Fingerprint.NormalizeKey(NewKey(key, prev.sshkey)),
                                       fingerprint := Fingerprint.Fingerprint(c, NewKey(key, prev.sshkey)).value,
                                       comment := Prompt.TriState(comment, prev.comment))
    ensures r.Ok? ==> KeysValid(c, {r.value})
  {
    match CheckKey(c, NewKey(key, prev.sshkey))
    case Err(e) => Err(e)
    case Ok((normal, fp)) =>
      Fingerprint.FingerprintOfNormalized(c, NewKey(key, prev.sshkey));
      Ok(prev.(sshkey := normal, fingerprint := fp, comment := Prompt.TriState(comment, prev.comment)))
  }

  /** Replacing a row by one with the same id keeps ids unique, the row
      count, and validity when the new row is valid. */
  lemma ReplaceRow(c: Fingerprint.Crypto, keys: set<SshKey>, prev: SshKey, k: SshKey)
    requires KeyIdsUnique(keys) && prev in keys && k.id == prev.id
    ensures KeyIdsUnique(keys - {prev} + {k})
    ensures |keys - {prev} + {k}| == |keys|
    ensures KeysValid(c, keys) && KeysValid(c, {k}) ==> KeysValid(c, keys - {prev} + {k})
  {
    var rest := keys - {prev};
    assert forall l :: l in rest ==> l.id != prev.id;
    assert k !in rest;
    assert |rest + {k}| == |rest| + 1;
  }

  /** `key update`: the key is found by its id, which must be a 64-bit
      integer; the key is re-read and re-fingerprinted, the comment follows
      the tri-state rule. */
  function UpdateKey(c: Fingerprint.Crypto, keys: set<SshKey>, idText: string, key: string, comment: string)
    : (r: Result<set<SshKey>, string>)
    requires KeyIdsUnique(keys)
    ensures idText == "" ==> r == Err("Key ID cannot be empty.")
    ensures idText != "" && IntParse.ParseI64(idText).None? ==> r == Err("Wrong key ID format.")
    ensures idText != "" && IntParse.ParseI64(idText).Some? && !(exists k :: k in keys && k.id == IntParse.ParseI64(idText).value)
      ==> r == Err("Key not found.")
    ensures r.Ok? <==> (idText != "" && IntParse.ParseI64(idText).Some? &&
      exists k :: k in keys && k.id == IntParse.ParseI64(idText).value && RewriteKey(c, k, key, comment).Ok?)
    ensures r.Ok? ==> exists prev :: (
      && prev in keys && Some(prev.id) == IntParse.ParseI64(idText)
      && RewriteKey(c, prev, key, comment).Ok?
      && r.value == keys - {prev} + {RewriteKey(c, prev, key, comment).value})
    ensures r.Ok? ==> |r.value| == |keys|
    ensures r.Ok? && KeysValid(c, keys) ==> KeysValid(c, r.value)
    ensures r.Ok? ==> KeyIdsUnique(r.value)
  {
    if idText == "" then Err("Key ID cannot be empty.")
    else match IntParse.ParseI64(idText)
      case None => Err("Wrong key ID format.")
      case Some(n) =>
        if !exists k :: k in keys && k.id == n then Err("Key not found.")
        else
          var prev :| prev in keys && prev.id == n;
          match RewriteKey(c, prev, key, comment)
          case Err(e) => Err(e)
          case Ok(k) =>
            ReplaceRow(c, keys, prev, k);
            Ok(keys - {prev} + {k})
  }

  /** Under the invariant, the fingerprint of the old key that `update`
      writes to the log is always available: the update never exits after
      its row was written. */
  lemma StoredKeysFingerprint(c: Fingerprint.Crypto, keys: set<SshKey>, k: SshKey)
    requires KeysValid(c, keys) && k in keys
    ensures Fingerprint.Fingerprint(c, k.sshkey).Ok?
    ensures CheckKey(c, k.sshkey) == Ok((k.sshkey, k.fingerprint))
  {
    var t := Text.Split(k.sshkey, ' ');
    assert t[..2] == t;
    Text.SplitJoin(t, ' ');
  }

  /** Updating a valid key with <Enter> for key and comment rewrites the row
      as it was. */
  lemma UpdateBlankKeeps(c: Fingerprint.Crypto, keys: set<SshKey>, k: SshKey, idText: string)
    requires KeysValid(c, keys) && KeyIdsUnique(keys) && k in keys
    requires IntParse.ParseI64(idText) == Some(k.id) && idText != ""
    ensures UpdateKey(c, keys, idText, "", "") == Ok(keys)
  {
    assert forall p :: p in keys && p.id == k.id ==> p == k;
    StoredKeysFingerprint(c, keys, k);
    assert RewriteKey(c, k, "", "") == Ok(k);
    assert keys - {k} + {k} == keys;
  }

  /** A row of the key listing: the key joined with its owner's email. */
  datatype KeyRow = KeyRow(id: int, email: string, sshkey: string, fingerprint: string, comment: Option<string>)

  /** `key list`: the email filter ignores case, the fingerprint filter does
      not, the id filter compares exactly. No `--exact` option exists. */
  function ListKeys(rows: seq<KeyRow>, email: Option<string>, fingerprint: Option<string>, id: Option<string>)
    : (r: Result<seq<KeyRow>, string>)
    ensures r.Err? <==> id.Some? && IntParse.ParseI64(id.value).None?
    ensures r.Ok? ==> Listing.IsSubseq(r.value, rows)
    ensures r.Ok? ==> forall k :: k in r.value <==>
      && k in rows
      && (email.None? || Text.Contains(Text.Lower(k.email), Text.Lower(email.value)))
      && (fingerprint.None? || Text.Contains(k.fingerprint, fingerprint.value))
      && (id.None? || IntParse.ParseI64(id.value) == Some(k.id))
  {
    var byEmail := Listing.FilterText(rows, email, false, (k: KeyRow) => k.email);
    var byPrint := Listing.FilterWith(byEmail, fingerprint, (k: KeyRow, f: string) => Text.Contains(k.fingerprint, f));
    Listing.IsSubseqTrans(byPrint, byEmail, rows);
    match Listing.FilterId(byPrint, id, (k: KeyRow) => k.id)
    case Err(e) => Err(e)
    case Ok(byId) =>
      Listing.IsSubseqTrans(byId, byPrint, rows);
      Ok(byId)
  }
}
