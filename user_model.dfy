/** The User schema (models/User.js): enum, defaults, setters, length limits
    and the expiry of unverified accounts. */
module UserModel {
  import opened Common
  import opened JsStrings

  datatype Role = UserRole | Admin

  function RoleName(r: Role): string {
    match r
    case UserRole => "user"
    case Admin => "admin"
  }

  /** Mongoose's cast of a string to the `role` enum; anything else fails
      validation. */
  function ParseRole(s: string): (r: Option<Role>)
    ensures r.Some? ==> RoleName(r.value) == s
    ensures forall role :: RoleName(role) == s ==> r == Some(role)
  {
    if s == "user" then Some(UserRole)
    else if s == "admin" then Some(Admin)
    else None
  }

  datatype Socials = Socials(x: string, instagram: string, github: string)

  datatype User = User(
    role: Role,
    username: string,
    email: string,
    password: string,
    displayName: Option<string>,
    isVerified: bool,
    verificationToken: Option<string>,
    verificationTokenExpires: Option<int>,
    resetPasswordToken: Option<string>,
    resetPasswordExpires: Option<int>,
    profilePicture: string,
    bio: string,
    createdAt: int,
    followers: seq<UserId>,
    following: seq<UserId>,
    savedPosts: seq<PostId>,
    likedPosts: seq<PostId>,
    socials: Socials)

  /** A user as the API answers with it: `.select("-password")`. */
  datatype PublicUser = PublicUser(
    role: Role,
    username: string,
    email: string,
    displayName: Option<string>,
    isVerified: bool,
    verificationToken: Option<string>,
    verificationTokenExpires: Option<int>,
    resetPasswordToken: Option<string>,
    resetPasswordExpires: Option<int>,
    profilePicture: string,
    bio: string,
    createdAt: int,
    followers: seq<UserId>,
    following: seq<UserId>,
    savedPosts: seq<PostId>,
    likedPosts: seq<PostId>,
    socials: Socials)

  const MaxDisplayName := 50
  const MaxBio := 140
  /** Seconds an unverified account lives after `createdAt`. */
  const UnverifiedTtl := 3600

  /** What a stored user satisfies: `username` and `email` are required,
      trimmed and lower-cased; `password` is required; `displayName` is trimmed
      and at most 50 characters; `bio` is at most 140 characters. */
  predicate ValidUser(u: User) {
    && u.username != [] && IsTrimmed(u.username) && HasNoUpper(u.username)
    && u.email != [] && IsTrimmed(u.email) && HasNoUpper(u.email)
    && u.password != []
    && (u.displayName.Some? ==>
          IsTrimmed(u.displayName.value) && |u.displayName.value| <= MaxDisplayName)
    && |u.bio| <= MaxBio
  }

  /** A new document with the schema defaults: role "user", not verified,
      empty picture, bio and social links, empty reference lists. The `trim`
      and `lowercase` setters normalise the username and email; the document
      passes validation exactly when both are non-empty once trimmed and a
      password is given. */
  function NewUser(username: string, email: string, password: string, now: int): (u: User)
    ensures ValidUser(u) <==> Trim(username) != [] && Trim(email) != [] && password != []
    ensures u.username == Lower(Trim(username)) && u.email == Lower(Trim(email))
    ensures u.password == password && u.createdAt == now
    ensures u.role == UserRole && !u.isVerified
    ensures u.profilePicture == [] && u.bio == [] && u.displayName.None?
    ensures u.followers == [] && u.following == [] && u.savedPosts == [] && u.likedPosts == []
  {
    User(UserRole, Lower(Trim(username)), Lower(Trim(email)), password, None, false, None, None, None, None,
         "", "", now, [], [], [], [], Socials("", "", ""))
  }

  /** A username or email that is already trimmed and lower-case is stored
      exactly as given. */
  lemma NewUserKeepsNormalLogin(username: string, email: string, password: string, now: int)
    requires IsTrimmed(username) && HasNoUpper(username)
    requires IsTrimmed(email) && HasNoUpper(email)
    ensures NewUser(username, email, password, now).username == username
    ensures NewUser(username, email, password, now).email == email
  {
    TrimOfTrimmed(username);
    TrimOfTrimmed(email);
  }

  /** `select("-password")`: every field but the password is kept. */
  function HidePassword(u: User): (p: PublicUser)
    ensures p.role == u.role && p.username == u.username && p.email == u.email
    ensures p.displayName == u.displayName && p.isVerified == u.isVerified
    ensures p.verificationToken == u.verificationToken
    ensures p.verificationTokenExpires == u.verificationTokenExpires
    ensures p.resetPasswordToken == u.resetPasswordToken
    ensures p.resetPasswordExpires == u.resetPasswordExpires
    ensures p.profilePicture == u.profilePicture && p.bio == u.bio && p.createdAt == u.createdAt
    ensures p.followers == u.followers && p.following == u.following
    ensures p.savedPosts == u.savedPosts && p.likedPosts == u.likedPosts && p.socials == u.socials
  {
    PublicUser(u.role, u.username, u.email, u.displayName, u.isVerified,
               u.verificationToken, u.verificationTokenExpires,
               u.resetPasswordToken, u.resetPasswordExpires,
               u.profilePicture, u.bio, u.createdAt, u.followers, u.following,
               u.savedPosts, u.likedPosts, u.socials)
  }

  /** The projection carries no trace of the password: two users that differ
      only in their password look the same. */
  lemma HidePasswordIgnoresPassword(u: User, password: string)
    ensures HidePassword(u.(password := password)) == HidePassword(u)
  {
  }

  /** The projection loses the password and nothing else: two users look the
      same exactly when they differ at most in their password. */
  lemma HidePasswordInjective(a: User, b: User)
    ensures HidePassword(a) == HidePassword(b) <==> a.(password := b.password) == b
  {
  }

  /** The partial TTL index: only unverified users are purged, 3600 s after
      `createdAt`. */
  predicate UserExpired(u: User, now: int) {
    !u.isVerified && now >= u.createdAt + UnverifiedTtl
  }

  lemma VerifiedUsersNeverExpire(u: User, now: int)
    requires u.isVerified
    ensures !UserExpired(u, now)
  {
  }

  /** Once expired, an unverified user stays expired. */
  lemma UserExpiryIsMonotone(u: User, now: int, later: int)
    requires UserExpired(u, now) && now <= later
    ensures UserExpired(u, later)
  {
  }
}
