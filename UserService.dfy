/**
 * Signup and login (`UserService`). Login checks the password, then reuses the user's
 * newest refresh token if it still validates, and otherwise issues a new one and saves
 * exactly one record for it. `LoginOutcome` is login as a value; `UserService.Login` is
 * proved to do exactly that to the refresh-token table.
 */
module Accounts {
  import opened Wrappers
  import opened Errors
  import opened Tokens
  import opened Store

  datatype UserRequest = UserRequest(username: string, password: string)

  /** What signup returns: the username and nothing else. */
  datatype UserResponse = UserResponse(username: string)

  /** What login returns. */
  datatype TokenResponse = TokenResponse(accessToken: string, refreshToken: string)

  /** What login returns, and the refresh-token table it leaves behind. */
  datatype LoginStep = LoginStep(result: Result<TokenResponse, Exception>, store: RefreshStore)

  /**
   * `login(username, password)` against the user table `users` and the refresh-token
   * table `store`. A failure changes nothing; a success always carries a fresh access
   * token for the username, and either reuses the newest record's token (the table
   * unchanged) or saves exactly one new record holding the refresh token it returns.
   */
  function LoginOutcome(users: map<string, User>, store: RefreshStore, codec: Codec,
                        encrypt: string -> string, username: string, password: string): (out: LoginStep)
    ensures username !in users ==> out == LoginStep(Failure(Custom(UserNotFound)), store)
    ensures username in users && users[username].password != encrypt(password) ==>
      out == LoginStep(Failure(Custom(WrongPassword)), store)
    ensures out.result.Failure? ==> out.store == store
    ensures out.result.Success? ==>
      && username in users && users[username].password == encrypt(password)
      && out.result.value.accessToken == codec.generateAccessToken(username)
    ensures out.result.Success? && out.store == store ==>
      && NewestFor(store.records, username).Some?
      && codec.validateToken(NewestFor(store.records, username).value.token)
      && out.result.value.refreshToken == NewestFor(store.records, username).value.token
    ensures out.result.Success? && out.store != store ==>
      && out.result.value.refreshToken == codec.generateRefreshToken(username)
      && out.store == Saved(store, username, out.result.value.refreshToken)
  {
    if username !in users then LoginStep(Failure(Custom(UserNotFound)), store)
    else if users[username].password != encrypt(password) then LoginStep(Failure(Custom(WrongPassword)), store)
    else
      var top := NewestFor(store.records, username);
      var accessToken := codec.generateAccessToken(username);
      if top.Some? && codec.validateToken(top.value.token) then
        LoginStep(Success(TokenResponse(accessToken, top.value.token)), store)
      else
        var newRefreshToken := codec.generateRefreshToken(username);
        LoginStep(Success(TokenResponse(accessToken, newRefreshToken)), Saved(store, username, newRefreshToken))
  }

  /** The newest record exists and validates: its exact token is returned and nothing is saved. */
  lemma LoginReusesNewest(users: map<string, User>, store: RefreshStore, codec: Codec,
                          encrypt: string -> string, username: string, password: string)
    requires username in users && users[username].password == encrypt(password)
    requires NewestFor(store.records, username).Some?
    requires codec.validateToken(NewestFor(store.records, username).value.token)
    ensures LoginOutcome(users, store, codec, encrypt, username, password) ==
      LoginStep(Success(TokenResponse(codec.generateAccessToken(username), NewestFor(store.records, username).value.token)), store)
  {
  }

  /** No newest record, or one that no longer validates: a new refresh token is issued and saved once. */
  lemma LoginIssuesNew(users: map<string, User>, store: RefreshStore, codec: Codec,
                       encrypt: string -> string, username: string, password: string)
    requires username in users && users[username].password == encrypt(password)
    requires NewestFor(store.records, username).None? || !codec.validateToken(NewestFor(store.records, username).value.token)
    ensures LoginOutcome(users, store, codec, encrypt, username, password) ==
      LoginStep(Success(TokenResponse(codec.generateAccessToken(username), codec.generateRefreshToken(username))),
                Saved(store, username, codec.generateRefreshToken(username)))
  {
  }

  /**
   * Two logins in a row whose first refresh token still validates: the second returns the
   * same refresh token and saves nothing.
   */
  lemma ConsecutiveLoginsShareRefreshToken(users: map<string, User>, store: RefreshStore, codec: Codec,
                                           encrypt: string -> string, username: string, password: string)
    requires IdsBelow(store.records, store.nextId)
    requires LoginOutcome(users, store, codec, encrypt, username, password).result.Success?
    requires codec.validateToken(LoginOutcome(users, store, codec, encrypt, username, password).result.value.refreshToken)
    ensures var first := LoginOutcome(users, store, codec, encrypt, username, password);
      var second := LoginOutcome(users, first.store, codec, encrypt, username, password);
      && IdsBelow(first.store.records, first.store.nextId)
      && second.result.Success?
      && second.result.value.refreshToken == first.result.value.refreshToken
      && second.store == first.store
  {
  }

  /** A user's first login, with no refresh record yet, leaves exactly one record for that user. */
  lemma FirstLoginSavesOneRecord(users: map<string, User>, store: RefreshStore, codec: Codec,
                                 encrypt: string -> string, username: string, password: string)
    requires username in users && users[username].password == encrypt(password)
    requires CountFor(store.records, username) == 0
    ensures CountFor(LoginOutcome(users, store, codec, encrypt, username, password).store.records, username) == 1
  {
    if NewestFor(store.records, username).Some? {
      var r := NewestFor(store.records, username).value;
      var i :| 0 <= i < |store.records| && store.records[i] == r;
      CountedIfPresent(store.records, username, i);
    }
    SavedCounts(store, username, codec.generateRefreshToken(username), username);
  }

  /** A record at some index counts towards its user. */
  lemma {:induction false} CountedIfPresent(records: seq<RefreshRecord>, user: string, i: nat)
    requires i < |records| && records[i].user == user
    ensures CountFor(records, user) > 0
  {
    if i < |records| - 1 {
      CountedIfPresent(records[..|records| - 1], user, i);
    }
  }

  /** The user service over the shared user table and the refresh-token table. */
  class UserService {
    const userRepository: UserRepository
    const refreshTokenRepository: RefreshTokenRepository
    const codec: Codec
    /** `PasswordEncryptionService.encrypt`. */
    const encrypt: string -> string

    ghost predicate Valid()
      reads userRepository, refreshTokenRepository
    {
      userRepository.Valid() && refreshTokenRepository.Valid()
    }

    constructor (userRepository: UserRepository, refreshTokenRepository: RefreshTokenRepository,
                 codec: Codec, encrypt: string -> string)
      ensures this.userRepository == userRepository && this.refreshTokenRepository == refreshTokenRepository
      ensures this.codec == codec && this.encrypt == encrypt
    {
      this.userRepository := userRepository;
      this.refreshTokenRepository := refreshTokenRepository;
      this.codec := codec;
      this.encrypt := encrypt;
    }

    /**
     * `signup`: a taken username raises DUPLICATE_USER_ID and changes nothing; a new one
     * adds exactly that user, with the encrypted password, and echoes only the username.
     */
    method Signup(request: UserRequest) returns (r: Result<UserResponse, Exception>)
      requires Valid()
      modifies userRepository
      ensures Valid()
      ensures request.username in old(userRepository.users) ==>
        r == Failure(Custom(DuplicateUserId)) && userRepository.users == old(userRepository.users)
      ensures request.username !in old(userRepository.users) ==>
        && r == Success(UserResponse(request.username))
        && userRepository.users ==
           old(userRepository.users)[request.username := User(request.username, encrypt(request.password))]
    {
      var user := User(request.username, encrypt(request.password));
      if userRepository.ExistsByUsername(user.username) {
        return Failure(Custom(DuplicateUserId));
      }
      userRepository.Save(user);
      return Success(UserResponse(request.username));
    }

    /** `login`: does to the refresh-token table exactly what `LoginOutcome` says, and returns its result. */
    method Login(username: string, password: string) returns (r: Result<TokenResponse, Exception>)
      requires Valid()
      modifies refreshTokenRepository
      ensures Valid()
      ensures LoginStep(r, refreshTokenRepository.Contents()) ==
        LoginOutcome(userRepository.users, old(refreshTokenRepository.Contents()), codec, encrypt, username, password)
    {
      var found := userRepository.FindByUsername(username);
      if found.None? {
        return Failure(Custom(UserNotFound));
      }
      var user := found.value;
      if user.password == encrypt(password) {
        var top := refreshTokenRepository.FindTopByUserOrderByIdDesc(user.username);
        if top.Some? {
          var dbRefreshToken := top.value.token;
          if codec.validateToken(dbRefreshToken) {
            var accessToken := codec.generateAccessToken(username);
            return Success(TokenResponse(accessToken, dbRefreshToken));
          }
        }
        var accessToken := codec.generateAccessToken(username);
        var newRefreshToken := codec.generateRefreshToken(username);
        refreshTokenRepository.Save(user.username, newRefreshToken);
        return Success(TokenResponse(accessToken, newRefreshToken));
      } else {
        return Failure(Custom(WrongPassword));
      }
    }
  }
}
