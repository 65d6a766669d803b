/** The file of authorized mounts and the service in front of it: `src/pam/mount.rs`, `src/pam/disk.rs`. */
module AuthFile {
  import opened Prelude

  /** `MountAuth`: for each user, the digests authorized so far. */
  datatype MountAuth = MountAuth(authorizations: map<Str, seq<Str>>)
  {
    /** `add_authorization`. */
    function Add(username: Str, hash: Str): MountAuth {
      var before := if username in authorizations then authorizations[username] else [];
      MountAuth(authorizations[username := before + [hash]])
    }

    /** `authorized`. */
    predicate Authorized(username: Str, hash: Str) {
      username in authorizations && hash in authorizations[username]
    }
  }

  const DEFAULT := MountAuth(map[])

  /** What the file holds. Writing starts by truncating it; only JSON text parses. */
  datatype File = Missing | Empty | Json(auth: MountAuth) | Garbage

  /** The authorizations a reader finds, if the file can be read at all. */
  function Effective(f: File): Option<MountAuth> {
    match f
    case Missing => Some(DEFAULT)
    case Json(auth) => Some(auth)
    case _ => None
  }

  /** What reading the file leaves behind: a missing file is created with the default contents. */
  function AfterRead(f: File): File {
    if f.Missing? then Json(DEFAULT) else f
  }

  /** What authorizing leaves behind, and whether it was accepted. */
  function AfterAuthorize(f: File, username: Str, hash: Str): (File, bool) {
    match Effective(f)
    case None => (f, false)
    case Some(auth) => (Json(auth.Add(username, hash)), true)
  }

  /** What a check answers: an unreadable file authorizes nothing. */
  predicate Grants(f: File, username: Str, hash: Str) {
    Effective(f).Some? && Effective(f).value.Authorized(username, hash)
  }

  /** The hash is on the user's list in the file. */
  ghost predicate Listed(f: File, username: Str, hash: Str) {
    f.Json? && username in f.auth.authorizations && hash in f.auth.authorizations[username]
  }

  /** Only a list in the file grants anything: not a missing file, nor one that cannot be read. */
  lemma GrantsExact(f: File, username: Str, hash: Str)
    ensures Grants(f, username, hash)
      <==> f.Json? && username in f.auth.authorizations && hash in f.auth.authorizations[username]
  {
  }

  /** Authorizing is accepted exactly when the file is missing or parses. Then the hash is the last of
      the user's list and every other list is as before; otherwise nothing changes. Reading creates a
      missing file without any authorization, and changes nothing else. */
  lemma AfterAuthorizeExact(f: File, username: Str, hash: Str)
    ensures var (f', accepted) := AfterAuthorize(f, username, hash);
      var before := if f.Json? then f.auth.authorizations else map[];
      && (accepted <==> f.Missing? || f.Json?)
      && (!accepted ==> f' == f)
      && (accepted ==>
           && f'.Json?
           && f'.auth.authorizations - {username} == before - {username}
           && username in f'.auth.authorizations
           && f'.auth.authorizations[username] == (if username in before then before[username] else []) + [hash])
    ensures AfterRead(f) == if f == Missing then Json(MountAuth(map[])) else f
  {
  }

  /** Authorizing a pair grants it unless the file is unreadable, and changes no other answer. */
  lemma AuthorizeExact(f: File, username: Str, hash: Str, u: Str, h: Str)
    ensures Grants(AfterAuthorize(f, username, hash).0, u, h)
      <==> Grants(f, u, h) || (u == username && h == hash && Effective(f).Some?)
    ensures Grants(AfterRead(f), u, h) == Grants(f, u, h)
  {
  }

  datatype AuthorizeReply = Accepted | IOError

  /** `MountAuthDBus` with the file it guards, one call at a time. */
  class AuthService {
    var file: File

    constructor (initial: File)
      ensures file == initial
    {
      file := initial;
    }

    /** `read_file_or_create_default`: a missing file is created with the default contents. */
    method ReadFileOrCreateDefault() returns (contents: File)
      modifies this
      ensures contents == file
      ensures file == AfterRead(old(file))
    {
      if file.Missing? {
        file := Empty;
        file := Json(DEFAULT);
      }
      contents := file;
    }

    /** `read_auth_file`. Reading never changes what a reader finds. */
    method ReadAuthFile() returns (r: Option<MountAuth>)
      modifies this
      ensures r == Effective(old(file)) == Effective(file)
      ensures file == AfterRead(old(file))
    {
      var contents := ReadFileOrCreateDefault();
      r := if contents.Json? then Some(contents.auth) else None;
    }

    /** `authorize`: read, add, write back. */
    method Authorize(username: Str, hash: Str) returns (reply: AuthorizeReply)
      modifies this
      ensures (file, reply.Accepted?) == AfterAuthorize(old(file), username, hash)
    {
      var read := ReadAuthFile();
      if read.None? {
        return IOError;
      }
      file := Empty;
      file := Json(read.value.Add(username, hash));
      reply := Accepted;
    }

    /** `check`. */
    method Check(username: Str, hash: Str) returns (answer: bool)
      modifies this
      ensures file == AfterRead(old(file)) && answer == Grants(old(file), username, hash)
    {
      var read := ReadAuthFile();
      answer := read.Some? && read.value.Authorized(username, hash);
    }
  }
}
