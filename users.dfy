/** The user routes (routes/users.js): read a profile without its password,
    derive the image-host public id of an uploaded picture, and update one's
    own profile. The image-host deletion is returned as the public id it is
    called with; the upload itself is the path the upload middleware hands
    over. */
module Users {
  import opened Common
  import opened JsStrings
  import opened UserModel
  import opened Store

  /** GET /:id: 404 for an unknown id, otherwise the user without the
      password. */
  method GetUser(db: Db, id: UserId) returns (code: Code, user: Option<PublicUser>)
    ensures id !in db.users ==> code == NotFound && user.None?
    ensures id in db.users ==> code == OK && user == Some(HidePassword(db.users[id]))
  {
    if id !in db.users {
      return NotFound, None;
    }
    code, user := OK, Some(HidePassword(db.users[id]));
  }

  /** `getPublicIdFromUrl`: no id for a missing or empty url, otherwise the
      id built from its '/'-separated pieces: the next-to-last piece (the text
      "undefined" when there is only one) and the last piece up to its first
      '.'. */
  function PublicIdFromUrl(url: Option<string>): (r: Option<string>)
    ensures r.None? <==> !Truthy(url)
    ensures r.Some? ==>
              var parts := Split(url.value, '/');
              Split(r.value, '/') ==
                [if |parts| >= 2 then parts[|parts| - 2] else "undefined", Split(parts[|parts| - 1], '.')[0]]
    ensures r.Some? ==>
              && |Split(r.value, '/')| == 2
              && '.' !in Split(r.value, '/')[1]
  {
    if !Truthy(url) then None else Some(IdFromPieces(Split(url.value, '/')))
  }

  /** The next-to-last piece (the text "undefined" when there is none), a
      '/', and the last piece up to its first '.'. The id has exactly one '/',
      and no '.' after it. */
  function IdFromPieces(parts: seq<string>): (id: string)
    requires |parts| >= 1 && forall i :: 0 <= i < |parts| ==> '/' !in parts[i]
    ensures Split(id, '/') ==
              [if |parts| >= 2 then parts[|parts| - 2] else "undefined", Split(parts[|parts| - 1], '.')[0]]
    ensures |Split(id, '/')| == 2 && '.' !in Split(id, '/')[1]
  {
    var fileName := Split(parts[|parts| - 1], '.')[0];
    var folderName := if |parts| >= 2 then parts[|parts| - 2] else "undefined";
    assert '/' !in fileName by {
      assert Join(Split(parts[|parts| - 1], '.'), '.') == parts[|parts| - 1];
      JoinHeadIsPrefix(Split(parts[|parts| - 1], '.'), '.');
    }
    assert '/' !in folderName;
    SplitAround(folderName, fileName, '/');
    SplitWithoutSep(folderName, '/');
    SplitWithoutSep(fileName, '/');
    folderName + "/" + fileName
  }

  /** The first piece of a join is a prefix of the joined text. */
  lemma {:induction false} JoinHeadIsPrefix(parts: seq<string>, sep: char)
    requires |parts| >= 1
    ensures |parts[0]| <= |Join(parts, sep)|
    ensures Join(parts, sep)[..|parts[0]|] == parts[0]
  {
    if |parts| > 1 {
      assert Join(parts, sep) == parts[0] + [sep] + Join(parts[1..], sep);
    }
  }

  /** The image host's delivery urls end in `<folder>/<name>.<format>`, with
      no '/' inside the folder, the name or the format and no '.' inside the
      name: for those the public id is `<folder>/<name>`. */
  lemma PublicIdOfHostedUrl(prefix: string, folder: string, name: string, format: string)
    requires '/' !in folder && '/' !in name && '/' !in format && '.' !in name
    ensures PublicIdFromUrl(Some(prefix + "/" + folder + "/" + name + "." + format)) == Some(folder + "/" + name)
  {
    var last := name + "." + format;
    var url := prefix + "/" + folder + "/" + last;
    assert prefix + "/" + folder + "/" + name + "." + format == url;
    assert url != [];
    LastTwoPieces(prefix, folder, last);
    assert last == name + ['.'] + format;
    SplitAround(name, format, '.');
    SplitWithoutSep(name, '.');
  }

  /** The last two '/'-separated pieces of `prefix/folder/last`. */
  lemma LastTwoPieces(prefix: string, folder: string, last: string)
    requires '/' !in folder && '/' !in last
    ensures var parts := Split(prefix + "/" + folder + "/" + last, '/');
            |parts| >= 2 && parts[|parts| - 1] == last && parts[|parts| - 2] == folder
  {
    var url := prefix + "/" + folder + "/" + last;
    assert url == (prefix + ['/'] + folder) + ['/'] + last;
    SplitAround(prefix + ['/'] + folder, last, '/');
    SplitAround(prefix, folder, '/');
    SplitWithoutSep(last, '/');
    SplitWithoutSep(folder, '/');
  }

  /** The document `findByIdAndUpdate(id, {$set: updates})` writes: `bio` and
      `displayName` as sent (a field left out of the body is not set; the
      trim setter applies to `displayName`), the uploaded path as
      `profilePicture` when a file came; every other field is kept. No schema
      validator runs on this write. */
  function SetProfile(u: User, bio: Option<string>, displayName: Option<string>, picture: Option<string>): (r: User)
    ensures r.(bio := u.bio, displayName := u.displayName, profilePicture := u.profilePicture) == u
    ensures r.bio == (if bio.Some? then bio.value else u.bio)
    ensures displayName.Some? ==> r.displayName == Some(Trim(displayName.value))
    ensures displayName.None? ==> r.displayName == u.displayName
    ensures r.profilePicture == (if picture.Some? then picture.value else u.profilePicture)
  {
    var withBio := if bio.Some? then u.(bio := bio.value) else u;
    var withName := if displayName.Some? then withBio.(displayName := Some(Trim(displayName.value))) else withBio;
    if picture.Some? then withName.(profilePicture := picture.value) else withName
  }

  /** The update as written can store a user that breaks the schema's
      `maxLength` limits: a 141-character bio, or a 51-character display
      name, is written over a valid user. */
  lemma ProfileLimitsNotEnforced()
    ensures exists u: User, bio: string ::
              ValidUser(u) && |bio| > MaxBio && !ValidUser(SetProfile(u, Some(bio), None, None))
    ensures exists u: User, name: string ::
              ValidUser(u) && Trim(name) == name && !ValidUser(SetProfile(u, None, Some(name), None))
  {
    assert !IsSpace('a');
    var u := User(UserRole, "a", "a", "a", None, false, None, None, None, None,
                  "", "", 0, [], [], [], [], Socials("", "", ""));
    var bio := seq(MaxBio + 1, _ => 'a');
    assert !ValidUser(SetProfile(u, Some(bio), None, None));
    var name := seq(MaxDisplayName + 1, _ => 'a');
    assert IsTrimmed(name);
    TrimOfTrimmed(name);
    assert !ValidUser(SetProfile(u, None, Some(name), None));
  }

  /** A profile edit keeps the unique logins: it never changes a username or
      an email. */
  lemma ProfileKeepsUniqueLogins(users: map<UserId, User>, id: UserId, r: User)
    requires UniqueLogins(users) && id in users
    requires r.username == users[id].username && r.email == users[id].email
    ensures UniqueLogins(users[id := r])
  {
    var m := users[id := r];
    forall a, b | a in m && b in m && a != b
      ensures m[a].username != m[b].username && m[a].email != m[b].email
    {
      assert m[a].username == users[a].username && m[a].email == users[a].email;
      assert m[b].username == users[b].username && m[b].email == users[b].email;
    }
  }

  /** PUT /update/:id with the schema's limits enforced on the write: 403
      unless the actor edits their own account, 404 for an unknown id; when a
      file came and the user had a picture, the old picture's public id is
      handed to the image host for deletion before the write; a profile that
      breaks the schema is refused with nothing written, otherwise it is
      stored and answered without its password. */
  method UpdateProfile(db: Db, actor: UserId, id: UserId, bio: Option<string>,
                       displayName: Option<string>, file: Option<string>)
      returns (code: Code, destroy: Option<string>, user: Option<PublicUser>)
    requires db.Valid()
    modifies db
    ensures db.Valid()
    ensures actor != id ==>
              code == Forbidden && destroy.None? && user.None? && db.State() == old(db.State())
    ensures actor == id && id !in old(db.users) ==>
              code == NotFound && destroy.None? && user.None? && db.State() == old(db.State())
    ensures actor == id && id in old(db.users) ==>
              var u := old(db.users)[id];
              var r := SetProfile(u, bio, displayName, file);
              && destroy == (if file.Some? && u.profilePicture != [] then PublicIdFromUrl(Some(u.profilePicture)) else None)
              && (ValidUser(r) ==>
                    code == OK && user == Some(HidePassword(r))
                    && db.State() == old(db.State()).(users := old(db.users)[id := r]))
              && (!ValidUser(r) ==>
                    code == ServerError && user.None? && db.State() == old(db.State()))
  {
    if actor != id {
      return Forbidden, None, None;
    }
    if id !in db.users {
      return NotFound, None, None;
    }
    var u := db.users[id];
    destroy := None;
    if file.Some? && u.profilePicture != [] {
      destroy := PublicIdFromUrl(Some(u.profilePicture));
    }
    var r := SetProfile(u, bio, displayName, file);
    if !ValidUser(r) {
      return ServerError, destroy, None;
    }
    SaveProfile(db, id, r);
    code, user := OK, Some(HidePassword(r));
  }

  /** Stores a profile that passes the schema and keeps its logins. */
  method SaveProfile(db: Db, id: UserId, r: User)
    requires db.Valid() && id in db.users && ValidUser(r)
    requires r.username == db.users[id].username && r.email == db.users[id].email
    modifies db
    ensures db.Valid()
    ensures db.State() == old(db.State()).(users := old(db.users)[id := r])
  {
    ProfileKeepsUniqueLogins(db.users, id, r);
    db.SaveUsers(db.users[id := r]);
  }
}
