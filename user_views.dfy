/** The account handlers of `users/views.py`: registration with an e-mail
    confirmation link, confirmation, the password-reset request, blocking
    and unblocking, and the ordered user list. */
module UserViews {
  import opened Shared
  import opened UserModels

  const LOGIN: string := "users:login"
  const USER_LIST: string := "users:user_list"

  /** The group every registered user joins. */
  const USER_GROUP: string := "Пользователь"

  const CONFIRM_PREFIX: string := "/users/email-confirm/"
  const RESET_PREFIX: string := "/users/password_reset_confirm/"

  const HEX_DIGITS: string := "0123456789abcdef"

  /** What `secrets.token_hex(16)` returns: 32 lower-case hex digits. */
  predicate IsHexToken(t: string) {
    |t| == 32 && forall i :: 0 <= i < |t| ==> t[i] in HEX_DIGITS
  }

  /** The path of the link that registration mails. */
  function ConfirmationPath(token: string): string {
    CONFIRM_PREFIX + token
  }

  /** The path of the link that a password-reset request mails. */
  function ResetPath(token: string): string {
    RESET_PREFIX + token + "/"
  }

  /** Resolution of a route `<prefix><str:token>/`: the token a path carries,
      if it matches. A `str` converter matches a non-empty segment without
      '/'. */
  function TokenRoute(prefix: string, path: string): (r: Option<string>)
    ensures r.Some? ==> path == prefix + r.value + "/" && r.value != [] && '/' !in r.value
    ensures r.Some? ==> path[|path| - 1] == '/'
  {
    if |path| > |prefix| + 1 && path[..|prefix|] == prefix && path[|path| - 1] == '/'
       && '/' !in path[|prefix|..|path| - 1]
    then
      assert path == path[..|prefix|] + path[|prefix|..|path| - 1] + "/";
      Some(path[|prefix|..|path| - 1])
    else None
  }

  /** The confirmation link does not resolve to the `email-confirm` route,
      which asks for a trailing '/'; the same link with the '/' appended
      resolves to the token. The reset link resolves to its route. */
  lemma ConfirmationLinkMissesRoute(token: string)
    requires IsHexToken(token)
    ensures TokenRoute(CONFIRM_PREFIX, ConfirmationPath(token)) == None
    ensures TokenRoute(CONFIRM_PREFIX, ConfirmationPath(token) + "/") == Some(token)
    ensures TokenRoute(RESET_PREFIX, ResetPath(token)) == Some(token)
  {
    var p := ConfirmationPath(token);
    assert p[|p| - 1] == token[31];
    assert token[31] in HEX_DIGITS;
    forall i | 0 <= i < |token| ensures token[i] != '/' {
      assert token[i] in HEX_DIGITS;
    }
    var q := p + "/";
    assert q[..|CONFIRM_PREFIX|] == CONFIRM_PREFIX;
    assert q[|CONFIRM_PREFIX|..|q| - 1] == token;
    var s := ResetPath(token);
    assert s[..|RESET_PREFIX|] == RESET_PREFIX;
    assert s[|RESET_PREFIX|..|s| - 1] == token;
  }

  /** A registration token fits the 100-character `token` column. */
  lemma HexTokenFits(u: User, token: string)
    requires IsHexToken(token)
    ensures TokenFits(u.(token := Some(token)))
  {
  }

  /** The users whose token is `token`. */
  function TokenHolders(users: map<nat, User>, token: string): (r: set<nat>)
    ensures forall k :: k in r <==> k in users && users[k].token == Some(token)
  {
    set k | k in users && users[k].token == Some(token)
  }

  /** The table with only `is_active` of user `id` changed. */
  function WithActive(users: map<nat, User>, id: nat, active: bool): map<nat, User>
    requires id in users
  {
    users[id := users[id].(isActive := active)]
  }

  /** Changing only `is_active` keeps the table valid (e-mails and tokens
      are untouched). */
  lemma WithActiveKeepsValid(users: map<nat, User>, id: nat, active: bool)
    requires UsersValid(users) && id in users
    ensures UsersValid(WithActive(users, id, active))
    ensures WithActive(users, id, active).Keys == users.Keys
  {
    var us := WithActive(users, id, active);
    forall a, b | a in us && b in us && a != b ensures us[a].email != us[b].email {
      assert us[a].email == users[a].email && us[b].email == users[b].email;
    }
  }

  /** `m` is the smallest key of `s`. */
  predicate IsLeast(s: set<nat>, m: nat) {
    m in s && forall k :: k in s ==> m <= k
  }

  /** Every non-empty set of keys has a smallest one. */
  lemma {:induction false} MinExists(s: set<nat>)
    requires s != {}
    ensures exists m :: IsLeast(s, m)
  {
    var x :| x in s;
    if s == {x} {
      assert IsLeast(s, x);
    } else {
      MinExists(s - {x});
      var m :| IsLeast(s - {x}, m);
      var least := if x < m then x else m;
      assert IsLeast(s, least) by {
        forall k | k in s ensures least <= k {
          if k != x {
            assert k in s - {x};
          }
        }
      }
    }
  }

  function MinKey(s: set<nat>): (m: nat)
    requires s != {}
    ensures m in s && forall k :: k in s ==> m <= k
  {
    MinExists(s);
    var m :| IsLeast(s, m);
    m
  }

  /** `UserListView.get_queryset`: every user, by ascending id. */
  function OrderById(users: map<nat, User>): (r: seq<User>)
    decreases users.Keys
  {
    if users.Keys == {} then []
    else
      var m := MinKey(users.Keys);
      [users[m]] + OrderById(users - {m})
  }

  /** The user list holds every user, as stored, and nothing else. */
  lemma {:induction false} OrderByIdContents(users: map<nat, User>)
    ensures |OrderById(users)| == |users.Keys|
    ensures forall u :: u in OrderById(users) <==> u in users.Values
    decreases users.Keys
  {
    if users.Keys != {} {
      var m := MinKey(users.Keys);
      var rest := users - {m};
      assert rest.Keys == users.Keys - {m};
      OrderByIdContents(rest);
      assert |rest.Keys| == |users.Keys| - 1;
      var r := OrderById(users);
      assert r == [users[m]] + OrderById(rest);
      forall u ensures u in r <==> u in users.Values {
        if u in users.Values {
          var k :| k in users && users[k] == u;
          if k != m {
            assert rest[k] == u;
          }
        }
        if u in OrderById(rest) {
          var k :| k in rest && rest[k] == u;
          assert users[k] == u;
        }
      }
    }
  }

  /** The user list is in strictly ascending order of id. */
  lemma {:induction false} OrderByIdSorted(users: map<nat, User>)
    requires forall k :: k in users ==> users[k].id == k
    ensures forall i, j :: 0 <= i < j < |OrderById(users)| ==> OrderById(users)[i].id < OrderById(users)[j].id
    decreases users.Keys
  {
    if users.Keys != {} {
      var m := MinKey(users.Keys);
      var rest := users - {m};
      assert rest.Keys == users.Keys - {m};
      OrderByIdSorted(rest);
      OrderByIdContents(rest);
      var tail := OrderById(rest);
      var r := [users[m]] + tail;
      assert OrderById(users) == r;
      forall i, j | 0 <= i < j < |r| ensures r[i].id < r[j].id {
        assert r[j] == tail[j - 1];
        if i > 0 {
          assert r[i] == tail[i - 1];
        } else {
          var u := tail[j - 1];
          assert u in rest.Values;
          var k :| k in rest && rest[k] == u;
          assert u.id == k && k != m && users[m].id == m;
        }
      }
    }
  }

  /** The accounts table. */
  class UserStore {
    var users: map<nat, User>

    predicate Valid()
      reads this
    {
      UsersValid(users)
    }

    constructor (us: map<nat, User>)
      requires UsersValid(us)
      ensures Valid() && users == us
    {
      users := us;
    }

    /** `UserCreateView.form_valid`, once the registration form has
        validated (so the e-mail is new) and the database has chosen
        `newId`. `token` is what `token_hex(16)` returned and `host` the
        request's host; `url` is the link mailed to the new user. `mailed`
        says whether `send_mail` returned; when it raises, the user is
        already saved inactive with the token but never joins the group, and
        the request ends in the exception. */
    method Register(newId: nat, email: string, host: string, token: string, mailed: bool) returns (r: Response, url: string)
      requires Valid() && newId !in users
      requires forall k :: k in users ==> users[k].email != email
      requires IsHexToken(token)
      modifies this
      ensures Valid()
      ensures url == "http://" + host + ConfirmationPath(token)
      ensures mailed ==> users == old(users)[newId := User(newId, email, false, Some(token), {USER_GROUP})]
      ensures mailed ==> r == Redirect(LOGIN)
      ensures !mailed ==> users == old(users)[newId := User(newId, email, false, Some(token), {})]
      ensures !mailed ==> r == ServerError
    {
      // saved inactive with the token; added to the group once mailed
      var u := User(newId, email, false, Some(token), if mailed then {USER_GROUP} else {});
      HexTokenFits(u, token);
      var us := users[newId := u];
      assert EmailsUnique(us) by {
        forall a, b | a in us && b in us && a != b ensures us[a].email != us[b].email {
          if a != newId && b != newId {
            assert us[a].email == users[a].email && us[b].email == users[b].email;
          }
        }
      }
      users := us;
      url := "http://" + host + ConfirmationPath(token);
      r := if mailed then Redirect(LOGIN) else ServerError;
    }

    /** `email_verification`: the one user holding `token` is activated and
        nothing else changes; no holder is not found, and several holders
        make the lookup raise. The token stays in place. */
    method VerifyEmail(token: string) returns (r: Response)
      requires Valid()
      modifies this
      ensures Valid()
      ensures |TokenHolders(old(users), token)| == 0 ==> r == NotFound && users == old(users)
      ensures |TokenHolders(old(users), token)| > 1 ==> r == ServerError && users == old(users)
      ensures |TokenHolders(old(users), token)| == 1 ==>
                && r == Redirect(LOGIN)
                && forall k :: k in TokenHolders(old(users), token) ==> users == WithActive(old(users), k, true)
    {
      var holders := set k | k in users && users[k].token == Some(token);
      assert holders == TokenHolders(users, token);
      if |holders| == 0 {
        return NotFound;
      }
      if |holders| > 1 {
        return ServerError;
      }
      var id :| id in holders;
      assert holders == {id} by {
        var others := holders - {id};
        assert holders == others + {id};
        assert |others| == 0;
      }
      WithActiveKeepsValid(users, id, true);
      users := WithActive(users, id, true);
      r := Redirect(LOGIN);
    }

    /** `PasswordResetRequestView.post`. `formValid` is what the reset
        form's validation decided and `email` its cleaned address; `token`
        is a fresh `token_hex(16)`. The user with that login gets the new
        token and is mailed `url`; `mailed` says whether `send_mail`
        returned. When it raises, the new token is already saved and the
        request ends in the exception. */
    method RequestReset(formValid: bool, email: string, host: string, token: string, mailed: bool)
      returns (r: Response, url: Option<string>)
      requires Valid() && IsHexToken(token)
      modifies this
      ensures Valid()
      ensures !formValid ==> r == Rendered && url == None && users == old(users)
      ensures formValid && UserByEmail(old(users), email).None? ==>
                r == NotFound && url == None && users == old(users)
      ensures formValid && UserByEmail(old(users), email).Some? ==>
                var k := UserByEmail(old(users), email).value;
                && users == old(users)[k := old(users)[k].(token := Some(token))]
                && r == (if mailed then Redirect(LOGIN) else ServerError)
                && url == Some("http://" + host + ResetPath(token))
    {
      if !formValid {
        return Rendered, None;
      }
      var found := UserByEmail(users, email);
      if found.None? {
        return NotFound, None;
      }
      var k := found.value;
      var u := users[k].(token := Some(token));
      HexTokenFits(users[k], token);
      var us := users[k := u];
      assert EmailsUnique(us) by {
        forall a, b | a in us && b in us && a != b ensures us[a].email != us[b].email {
          assert us[a].email == users[a].email && us[b].email == users[b].email;
        }
      }
      users := us;
      url := Some("http://" + host + ResetPath(token));
      r := if mailed then Redirect(LOGIN) else ServerError;
    }

    /** The shared body of the block and unblock views: set `is_active` of
        user `userId` to `active`, unless the requester lacks the
        permission, no id was given, no such user exists, or the target is
        the requester (answered with `selfError`). */
    method SetActivity(requester: nat, permissions: set<string>, userId: Option<nat>, active: bool, selfError: string)
      returns (r: Response)
      requires Valid()
      modifies this
      ensures Valid()
      ensures BLOCK_PERMISSION !in permissions ==> r == Forbidden("") && users == old(users)
      ensures BLOCK_PERMISSION in permissions && (userId.None? || userId.value == 0) ==>
                r == BadRequest("Не передан ID пользователя") && users == old(users)
      ensures BLOCK_PERMISSION in permissions && userId.Some? && userId.value != 0 && userId.value !in old(users) ==>
                r == NotFound && users == old(users)
      ensures BLOCK_PERMISSION in permissions && userId.Some? && userId.value != 0 && userId.value in old(users) ==>
                if userId.value == requester then r == BadRequest(selfError) && users == old(users)
                else r == Redirect(USER_LIST) && users == WithActive(old(users), userId.value, active)
    {
      if BLOCK_PERMISSION !in permissions {
        return Forbidden("");
      }
      if userId.None? || userId.value == 0 {
        return BadRequest("Не передан ID пользователя");
      }
      var id := userId.value;
      if id !in users {
        return NotFound;
      }
      if id == requester {
        return BadRequest(selfError);
      }
      WithActiveKeepsValid(users, id, active);
      users := WithActive(users, id, active);
      r := Redirect(USER_LIST);
    }

    /** `BlockUserView.post`: only the target's `is_active` becomes false.
        Blocking a user who is already blocked changes nothing. */
    method Block(requester: nat, permissions: set<string>, userId: Option<nat>) returns (r: Response)
      requires Valid()
      modifies this
      ensures Valid()
      ensures BLOCK_PERMISSION !in permissions ==> r == Forbidden("") && users == old(users)
      ensures BLOCK_PERMISSION in permissions && (userId.None? || userId.value == 0) ==>
                r == BadRequest("Не передан ID пользователя") && users == old(users)
      ensures BLOCK_PERMISSION in permissions && userId.Some? && userId.value != 0 && userId.value !in old(users) ==>
                r == NotFound && users == old(users)
      ensures BLOCK_PERMISSION in permissions && userId.Some? && userId.value != 0 && userId.value in old(users) ==>
                if userId.value == requester then
                  r == BadRequest("Нельзя заблокировать самого себя") && users == old(users)
                else
                  r == Redirect(USER_LIST) && users == WithActive(old(users), userId.value, false)
      ensures userId.Some? && userId.value in old(users) && !old(users)[userId.value].isActive ==> users == old(users)
    {
      r := SetActivity(requester, permissions, userId, false, "Нельзя заблокировать самого себя");
    }

    /** `UnblockUserView.post`: the mirror image of `Block`; only the
        target's `is_active` becomes true, and unblocking an active user
        changes nothing. */
    method Unblock(requester: nat, permissions: set<string>, userId: Option<nat>) returns (r: Response)
      requires Valid()
      modifies this
      ensures Valid()
      ensures BLOCK_PERMISSION !in permissions ==> r == Forbidden("") && users == old(users)
      ensures BLOCK_PERMISSION in permissions && (userId.None? || userId.value == 0) ==>
                r == BadRequest("Не передан ID пользователя") && users == old(users)
      ensures BLOCK_PERMISSION in permissions && userId.Some? && userId.value != 0 && userId.value !in old(users) ==>
                r == NotFound && users == old(users)
      ensures BLOCK_PERMISSION in permissions && userId.Some? && userId.value != 0 && userId.value in old(users) ==>
                if userId.value == requester then
                  r == BadRequest("Нельзя разблокировать самого себя") && users == old(users)
                else
                  r == Redirect(USER_LIST) && users == WithActive(old(users), userId.value, true)
      ensures userId.Some? && userId.value in old(users) && old(users)[userId.value].isActive ==> users == old(users)
    {
      r := SetActivity(requester, permissions, userId, true, "Нельзя разблокировать самого себя");
    }
  }

  /** The reset token and the confirmation token share `token`, and neither
      the reset request nor the confirmation looks at `is_active`: a user
      that a permission holder blocks can request a reset and open the
      confirmation route with the new token, which activates them again
      without the permission. */
  method BlockedUserReactivates(
    us: map<nat, User>, admin: nat, target: nat, host: string, token: string)
    returns (afterBlock: bool, afterConfirm: bool)
    requires UsersValid(us) && target in us && target != 0 && admin != target
    requires IsHexToken(token)
    requires forall k :: k in us && k != target ==> us[k].token != Some(token)
    ensures !afterBlock && afterConfirm
  {
    var store := new UserStore(us);
    var blocked := store.Block(admin, {BLOCK_PERMISSION}, Some(target));
    afterBlock := store.users[target].isActive;
    var email := store.users[target].email;
    var requested, url := store.RequestReset(true, email, host, token, true);
    assert TokenHolders(store.users, token) == {target};
    var confirmed := store.VerifyEmail(token);
    afterConfirm := store.users[target].isActive;
  }
}
