/**
 The server's session table and the account handlers that change it. Handlers run one at
 a time; close events of other connections land between any two of their table calls.
 */
module Sessions {
  import opened Wrappers

  datatype Kind = FdSession | TokenSession

  /** Token sessions carry fd -1, fd sessions an empty token. */
  datatype Session = Session(uid: string, kind: Kind, token: string, fd: int)

  predicate Shaped(s: Session) {
    if s.kind.FdSession? then s.token == "" && s.fd != -1 else s.fd == -1
  }

  /** Two sessions that must not be in the table together. */
  predicate Clash(a: Session, b: Session) {
    a.kind == b.kind &&
    (a.uid == b.uid || (if a.kind.FdSession? then a.fd == b.fd else a.token == b.token))
  }

  ghost predicate Consistent(ss: seq<Session>) {
    && (forall i :: 0 <= i < |ss| ==> Shaped(ss[i]))
    && (forall i, j :: 0 <= i < j < |ss| ==> !Clash(ss[i], ss[j]))
  }

  /** The test by which `session_add` refuses a session. */
  predicate Refuses(t: Session, s: Session) {
    if s.kind.FdSession? then t.fd == s.fd || (t.kind.FdSession? && t.uid == s.uid)
    else t.kind.TokenSession? && t.token == s.token
  }

  lemma RemoveOne(ss: seq<Session>, i: nat)
    requires i < |ss|
    ensures forall x :: x in ss <==> x == ss[i] || x in ss[..i] + ss[i + 1..]
    ensures Consistent(ss) ==> Consistent(ss[..i] + ss[i + 1..])
  {
    var r := ss[..i] + ss[i + 1..];
    forall x | x in ss
      ensures x == ss[i] || x in r
    {
      var k :| 0 <= k < |ss| && ss[k] == x;
      if k < i {
        assert r[k] == x;
      } else if k > i {
        assert r[k - 1] == x;
      }
    }
  }

  class Table {
    var sessions: seq<Session>

    ghost predicate Valid()
      reads this
    {
      Consistent(sessions)
    }

    constructor ()
      ensures Valid() && sessions == []
    {
      sessions := [];
    }

    method Add(s: Session) returns (ok: bool)
      modifies this
      ensures ok <==> forall t :: t in old(sessions) ==> !Refuses(t, s)
      ensures sessions == if ok then old(sessions) + [s] else old(sessions)
      ensures old(Valid()) && Shaped(s)
           && (s.kind.TokenSession? ==> forall t :: t in old(sessions) && t.kind.TokenSession? ==> t.uid != s.uid)
           ==> Valid()
    {
      for i := 0 to |sessions|
        invariant forall j :: 0 <= j < i ==> !Refuses(sessions[j], s)
      {
        if Refuses(sessions[i], s) {
          return false;
        }
      }
      sessions := sessions + [s];
      ok := true;
    }

    method DelFd(fd: int) returns (found: bool)
      requires fd != -1
      modifies this
      ensures forall x :: x in sessions <==> x in old(sessions) && x.fd != fd
      ensures found <==> exists x :: x in old(sessions) && x.fd == fd
      ensures old(Valid()) ==> Valid()
    {
      found := false;
      var i := 0;
      while i < |sessions|
        invariant 0 <= i <= |sessions|
        invariant forall j :: 0 <= j < i ==> sessions[j].fd != fd
        invariant forall x :: x in old(sessions) <==> x in sessions || (found && x in old(sessions) && x.fd == fd)
        invariant found ==> exists x :: x in old(sessions) && x.fd == fd
        invariant old(Valid()) ==> Valid()
        decreases |sessions| - i
      {
        if sessions[i].fd == fd {
          RemoveOne(sessions, i);
          sessions := sessions[..i] + sessions[i + 1..];
          found := true;
        } else {
          i := i + 1;
        }
      }
    }

    method DelToken(uid: string) returns (found: bool)
      modifies this
      ensures forall x :: x in sessions <==> x in old(sessions) && !(x.kind.TokenSession? && x.uid == uid)
      ensures found <==> exists x :: x in old(sessions) && x.kind.TokenSession? && x.uid == uid
      ensures old(Valid()) ==> Valid()
    {
      found := false;
      var i := 0;
      while i < |sessions|
        invariant 0 <= i <= |sessions|
        invariant forall j :: 0 <= j < i ==> !(sessions[j].kind.TokenSession? && sessions[j].uid == uid)
        invariant forall x :: x in old(sessions) <==>
          x in sessions || (found && x in old(sessions) && x.kind.TokenSession? && x.uid == uid)
        invariant found ==> exists x :: x in old(sessions) && x.kind.TokenSession? && x.uid == uid
        invariant old(Valid()) ==> Valid()
        decreases |sessions| - i
      {
        if sessions[i].kind.TokenSession? && sessions[i].uid == uid {
          RemoveOne(sessions, i);
          sessions := sessions[..i] + sessions[i + 1..];
          found := true;
        } else {
          i := i + 1;
        }
      }
    }

    method RefFd(fd: int) returns (r: Option<Session>)
      requires fd != -1
      ensures r.Some? ==> r.value in sessions && r.value.fd == fd
      ensures r.None? ==> forall x :: x in sessions ==> x.fd != fd
    {
      r := None;
      for i := 0 to |sessions|
        invariant r.Some? ==> r.value in sessions && r.value.fd == fd
        invariant r.None? ==> forall j :: 0 <= j < i ==> sessions[j].fd != fd
      {
        if sessions[i].fd == fd {
          r := Some(sessions[i]);
        }
      }
    }

    method RefUid(uid: string, kind: Kind) returns (r: Option<Session>)
      ensures r.Some? ==> r.value in sessions && r.value.kind == kind && r.value.uid == uid
      ensures r.None? ==> forall x :: x in sessions ==> !(x.kind == kind && x.uid == uid)
    {
      for i := 0 to |sessions|
        invariant forall j :: 0 <= j < i ==> !(sessions[j].kind == kind && sessions[j].uid == uid)
      {
        if sessions[i].kind == kind && sessions[i].uid == uid {
          return Some(sessions[i]);
        }
      }
      r := None;
    }

    method RefToken(token: string) returns (r: Option<Session>)
      ensures r.Some? ==> r.value in sessions && r.value.kind.TokenSession? && r.value.token == token
      ensures r.None? ==> forall x :: x in sessions ==> !(x.kind.TokenSession? && x.token == token)
    {
      for i := 0 to |sessions|
        invariant forall j :: 0 <= j < i ==> !(sessions[j].kind.TokenSession? && sessions[j].token == token)
      {
        if sessions[i].kind.TokenSession? && sessions[i].token == token {
          return Some(sessions[i]);
        }
      }
      r := None;
    }

    /** Close events that arrive while a handler is between two calls. */
    method CloseEvents(fds: seq<int>)
      requires -1 !in fds
      modifies this
      ensures forall x :: x in sessions <==> x in old(sessions) && x.fd !in fds
      ensures old(Valid()) ==> Valid()
    {
      for i := 0 to |fds|
        invariant forall x :: x in sessions <==> x in old(sessions) && x.fd !in fds[..i]
        invariant old(Valid()) ==> Valid()
      {
        var found := DelFd(fds[i]);
        assert fds[..i + 1] == fds[..i] + [fds[i]];
      }
      assert fds[..|fds|] == fds;
    }
  }

  // ---------- Handlers ----------

  datatype Result = Ok | OkConflict | UserNotExist | InvalidUserOrPwd | SessionExpired

  /** What the account database answers during a login. */
  datatype Account = Account(exists_: bool, pwdOk: bool, stillExists: bool)

  /** Close events by the gap between table calls in which they arrive. */
  type Closes = seq<seq<int>>

  predicate RealFds(closes: Closes) {
    forall i :: 0 <= i < |closes| ==> -1 !in closes[i]
  }

  predicate ClosedIn(closes: Closes, lo: nat, hi: nat, fd: int)
    requires lo <= hi <= |closes|
  {
    exists i :: lo <= i < hi && fd in closes[i]
  }

  /** A session that has to go before `uid` may use `fd`. */
  predicate InTheWay(x: Session, uid: string, fd: int) {
    (x.kind.FdSession? && x.uid == uid) || x.fd == fd
  }

  lemma SameFdSession(ss: seq<Session>, x: Session, y: Session)
    requires Consistent(ss) && x in ss && y in ss
    requires x.kind == y.kind && (x.uid == y.uid || (x.kind.FdSession? && x.fd == y.fd))
    ensures x == y
  {
    var i :| 0 <= i < |ss| && ss[i] == x;
    var j :| 0 <= j < |ss| && ss[j] == y;
    assert i < j ==> !Clash(ss[i], ss[j]);
    assert j < i ==> !Clash(ss[j], ss[i]);
  }

  lemma OnlyUser(ss: seq<Session>, s: Session)
    requires Consistent(ss) && s in ss && s.kind.FdSession?
    ensures forall x :: x in ss ==> (x.fd == s.fd <==> x.kind.FdSession? && x.uid == s.uid)
  {
    forall x | x in ss
      ensures x.fd == s.fd <==> x.kind.FdSession? && x.uid == s.uid
    {
      assert Shaped(x) && Shaped(s);
      if x.kind.FdSession? && (x.fd == s.fd || x.uid == s.uid) {
        SameFdSession(ss, x, s);
      }
    }
  }

  /**
   First half of the eviction: an earlier login of the same user. The code asserts that
   its deletion finds the session, which holds unless a close event got there first.
   */
  method EvictUser(t: Table, uid: string, closes: Closes) returns (conflict: bool, deleted: bool)
    requires t.Valid() && |closes| == 1 && RealFds(closes)
    modifies t
    ensures t.Valid()
    ensures forall x :: x in t.sessions <==>
      x in old(t.sessions) && !(x.kind.FdSession? && x.uid == uid) && x.fd !in closes[0]
    ensures conflict <==> exists x :: x in old(t.sessions) && x.kind.FdSession? && x.uid == uid
    ensures forall x :: x in old(t.sessions) && x.kind.FdSession? && x.uid == uid ==> (deleted <==> x.fd !in closes[0])
  {
    var r := t.RefUid(uid, FdSession);
    conflict, deleted := r.Some?, false;
    if r.Some? {
      OnlyUser(t.sessions, r.value);
      assert Shaped(r.value);
    }
    t.CloseEvents(closes[0]);
    if r.Some? {
      deleted := t.DelFd(r.value.fd);
    }
  }

  /** Second half: an earlier login over the same connection. */
  method EvictFd(t: Table, fd: int, closes: Closes) returns (conflict: bool, deleted: bool)
    requires t.Valid() && fd != -1 && |closes| == 1 && RealFds(closes)
    modifies t
    ensures t.Valid()
    ensures forall x :: x in t.sessions <==> x in old(t.sessions) && x.fd != fd && x.fd !in closes[0]
    ensures conflict <==> exists x :: x in old(t.sessions) && x.fd == fd
    ensures conflict ==> (deleted <==> fd !in closes[0])
  {
    var r := t.RefFd(fd);
    conflict, deleted := r.Some?, false;
    t.CloseEvents(closes[0]);
    if r.Some? {
      deleted := t.DelFd(r.value.fd);
    }
  }

  /** A session that a login reports: the user's own, or one on the descriptor that no close event took first. */
  predicate Noticed(x: Session, uid: string, fd: int, gap: seq<int>, next: seq<int>) {
    (x.kind.FdSession? && x.uid == uid) || (x.fd == fd && fd !in gap && fd !in next)
  }

  /** `res_account_check_session_exist`. */
  method CheckSessionExist(t: Table, uid: string, fd: int, closes: Closes) returns (conflict: bool)
    requires t.Valid() && fd != -1 && |closes| == 3 && RealFds(closes)
    modifies t
    ensures t.Valid()
    ensures forall x :: x in t.sessions <==>
      x in old(t.sessions) && !InTheWay(x, uid, fd) && !ClosedIn(closes, 0, 3, x.fd)
    ensures conflict <==> exists x :: x in old(t.sessions) && Noticed(x, uid, fd, closes[0], closes[1])
  {
    ghost var before := t.sessions;
    var user, userGone := EvictUser(t, uid, closes[0..1]);
    ghost var between := t.sessions;
    t.CloseEvents(closes[1]);
    var same, fdGone := EvictFd(t, fd, closes[2..3]);
    conflict := user || same;
    forall x
      ensures x in t.sessions <==> x in before && !InTheWay(x, uid, fd) && !ClosedIn(closes, 0, 3, x.fd)
    {
      assert ClosedIn(closes, 0, 3, x.fd) <==> x.fd in closes[0] || x.fd in closes[1] || x.fd in closes[2];
    }
  }

  /** The table after sessions of `uid` and `fd` made way for a login, apart from closed ones. */
  ghost predicate LoggedIn(before: seq<Session>, after: seq<Session>, uid: string, fd: int, closes: Closes) {
    forall x :: x in after <==>
      || (x in before && !InTheWay(x, uid, fd) && !ClosedIn(closes, 0, |closes|, x.fd))
      || x == Session(uid, FdSession, "", fd)
  }

  /** The calls shared by both kinds of login. The final add never meets a duplicate. */
  method Admit(t: Table, uid: string, fd: int, closes: Closes) returns (conflict: bool, added: bool)
    requires t.Valid() && fd != -1 && |closes| == 4 && RealFds(closes)
    modifies t
    ensures t.Valid() && added
    ensures LoggedIn(old(t.sessions), t.sessions, uid, fd, closes)
    ensures conflict <==> exists x :: x in old(t.sessions) && Noticed(x, uid, fd, closes[0], closes[1])
  {
    ghost var before := t.sessions;
    conflict := CheckSessionExist(t, uid, fd, closes[..3]);
    t.CloseEvents(closes[3]);
    added := t.Add(Session(uid, FdSession, "", fd));
    forall x
      ensures ClosedIn(closes, 0, 4, x) <==> ClosedIn(closes[..3], 0, 3, x) || x in closes[3]
    {
      if ClosedIn(closes, 0, 4, x) {
        var i :| 0 <= i < 4 && x in closes[i];
        assert i < 3 ==> closes[..3][i] == closes[i];
      }
      if ClosedIn(closes[..3], 0, 3, x) {
        var i :| 0 <= i < 3 && x in closes[..3][i];
        assert closes[..3][i] == closes[i];
      }
    }
  }

  /** A token that another user's session already has; fresh random tokens avoid it. */
  ghost predicate TokenTaken(ss: seq<Session>, uid: string, token: string) {
    exists x :: x in ss && x.kind.TokenSession? && x.token == token && x.uid != uid
  }

  /** Replaces the user's token session. */
  method IssueToken(t: Table, uid: string, token: string, closes: Closes) returns (added: bool)
    requires t.Valid() && |closes| == 3 && RealFds(closes)
    modifies t
    ensures t.Valid()
    ensures added <==> !TokenTaken(old(t.sessions), uid, token)
    ensures forall x :: x in t.sessions <==>
      || (x in old(t.sessions) && !(x.kind.TokenSession? && x.uid == uid) && !ClosedIn(closes, 0, 3, x.fd))
      || (added && x == Session(uid, TokenSession, token, -1))
  {
    ghost var before := t.sessions;
    t.CloseEvents(closes[0]);
    var r := t.RefUid(uid, TokenSession);
    t.CloseEvents(closes[1]);
    if r.Some? {
      var found := t.DelToken(r.value.uid);
    }
    t.CloseEvents(closes[2]);
    ghost var cleared := t.sessions;
    forall x
      ensures x in cleared <==>
        x in before && !(x.kind.TokenSession? && x.uid == uid) && !ClosedIn(closes, 0, 3, x.fd)
    {
      assert ClosedIn(closes, 0, 3, x.fd) <==> x.fd in closes[0] || x.fd in closes[1] || x.fd in closes[2];
    }
    forall x | x in before && x.kind.TokenSession?
      ensures !ClosedIn(closes, 0, 3, x.fd)
    {
      assert Shaped(x);
    }
    added := t.Add(Session(uid, TokenSession, token, -1));
  }

  /** Password login, optionally issuing a token for later. */
  method Login(t: Table, uid: string, fd: int, db: Account, token: Option<string>, closes: Closes)
      returns (result: Result)
    requires t.Valid() && fd != -1 && |closes| == 7 && RealFds(closes)
    modifies t
    ensures t.Valid()
    ensures !db.exists_ ==> result == UserNotExist && t.sessions == old(t.sessions)
    ensures db.exists_ && !db.pwdOk ==> result == InvalidUserOrPwd && t.sessions == old(t.sessions)
    ensures db.exists_ && db.pwdOk && !db.stillExists ==>
      && result == UserNotExist
      && forall x :: x in t.sessions <==>
           x in old(t.sessions) && !InTheWay(x, uid, fd) && !ClosedIn(closes[..3], 0, 3, x.fd)
    ensures db.exists_ && db.pwdOk && db.stillExists ==>
      && (result == Ok || result == OkConflict)
      && (result == OkConflict <==> exists x :: x in old(t.sessions) && Noticed(x, uid, fd, closes[0], closes[1]))
      && (token.None? ==> LoggedIn(old(t.sessions), t.sessions, uid, fd, closes[..4]))
      && (token.Some? ==> forall x :: x in t.sessions <==>
           || (&& (x == Session(uid, FdSession, "", fd)
                   || (x in old(t.sessions) && !InTheWay(x, uid, fd) && !ClosedIn(closes[..4], 0, 4, x.fd)))
               && !(x.kind.TokenSession? && x.uid == uid)
               && !ClosedIn(closes[4..], 0, 3, x.fd))
           || (x == Session(uid, TokenSession, token.value, -1)
               && !TokenTaken(old(t.sessions), uid, token.value)))
  {
    if !db.exists_ {
      return UserNotExist;
    }
    if !db.pwdOk {
      return InvalidUserOrPwd;
    }
    if !db.stillExists {
      var conflict := CheckSessionExist(t, uid, fd, closes[..3]);
      return UserNotExist;
    }
    var conflict, added := Admit(t, uid, fd, closes[..4]);
    if token.Some? {
      TokensSurvive(old(t.sessions), t.sessions, uid, fd, closes[..4], token.value);
      added := IssueToken(t, uid, token.value, closes[4..]);
    }
    result := if conflict then OkConflict else Ok;
  }

  lemma TokensSurvive(before: seq<Session>, after: seq<Session>, uid: string, fd: int, closes: Closes, token: string)
    requires Consistent(before) && RealFds(closes) && fd != -1
    requires LoggedIn(before, after, uid, fd, closes)
    ensures TokenTaken(before, uid, token) <==> TokenTaken(after, uid, token)
  {
    forall x | x in before && x.kind.TokenSession?
      ensures x in after
    {
      assert Shaped(x);
    }
  }

  /**
   Login by an issued token: the token's user gets a session on this connection, and
   keeps it even when the account turns out to be gone.
   */
  method TokenLogin(t: Table, token: string, fd: int, stillExists: bool, closes: Closes)
      returns (result: Result, ghost uid: string)
    requires t.Valid() && fd != -1 && |closes| == 5 && RealFds(closes)
    modifies t
    ensures t.Valid()
    ensures result == SessionExpired ==>
      && t.sessions == old(t.sessions)
      && forall x :: x in old(t.sessions) ==> !(x.kind.TokenSession? && x.token == token)
    ensures result != SessionExpired ==>
      && (result == UserNotExist <==> !stillExists)
      && (stillExists ==> result == Ok || result == OkConflict)
      && (result == OkConflict ==> stillExists)
      && (stillExists ==> (result == OkConflict <==>
            exists x :: x in old(t.sessions) && x.fd !in closes[0] && Noticed(x, uid, fd, closes[1], closes[2])))
      && Session(uid, TokenSession, token, -1) in old(t.sessions)
      && Session(uid, TokenSession, token, -1) in t.sessions
      && forall x :: x in t.sessions <==>
           || (x in old(t.sessions) && !InTheWay(x, uid, fd)
               && x.fd !in closes[0] && !ClosedIn(closes[1..], 0, 4, x.fd))
           || x == Session(uid, FdSession, "", fd)
  {
    var r := t.RefToken(token);
    uid := "";
    if r.None? {
      return SessionExpired, uid;
    }
    assert Shaped(r.value);
    uid := r.value.uid;
    t.CloseEvents(closes[0]);
    var conflict, added := Admit(t, r.value.uid, fd, closes[1..]);
    result := if !stillExists then UserNotExist else if conflict then OkConflict else Ok;
  }

  /** The code asserts that the deletion finds a session; a close event in the gap makes that fail. */
  method Logout(t: Table, fd: int, closes: seq<int>) returns (result: Result, deleted: bool)
    requires t.Valid() && fd != -1 && -1 !in closes
    modifies t
    ensures t.Valid()
    ensures result == SessionExpired ==>
      t.sessions == old(t.sessions) && forall x :: x in old(t.sessions) ==> x.fd != fd
    ensures result != SessionExpired ==>
      && result == Ok && (exists x :: x in old(t.sessions) && x.fd == fd)
      && (deleted <==> fd !in closes)
      && forall x :: x in t.sessions <==> x in old(t.sessions) && x.fd != fd && x.fd !in closes
  {
    var r := t.RefFd(fd);
    if r.None? {
      return SessionExpired, false;
    }
    t.CloseEvents(closes);
    deleted := t.DelFd(fd);
    result := Ok;
  }

  // ---------- Runs ----------

  datatype Event =
    | PasswordLogin(uid: string, fd: int, db: Account, wanted: Option<string>, closes: Closes)
    | LoginByToken(token: string, fd: int, stillExists: bool, closes: Closes)
    | LogoutRequest(fd: int, closed: seq<int>)
    | Closed(fd: int)

  predicate RealEvent(e: Event) {
    && e.fd != -1
    && (e.PasswordLogin? ==> |e.closes| == 7 && RealFds(e.closes))
    && (e.LoginByToken? ==> |e.closes| == 5 && RealFds(e.closes))
    && (e.LogoutRequest? ==> -1 !in e.closed)
  }

  /** Every run of the server keeps fds, users and tokens unique. */
  method Serve(events: seq<Event>) returns (t: Table)
    requires forall i :: 0 <= i < |events| ==> RealEvent(events[i])
    ensures t.Valid()
  {
    t := new Table();
    for i := 0 to |events|
      invariant t.Valid() && fresh(t)
    {
      assert RealEvent(events[i]);
      match events[i] {
        case PasswordLogin(uid, fd, db, wanted, closes) =>
          var r := Login(t, uid, fd, db, wanted, closes);
        case LoginByToken(token, fd, stillExists, closes) =>
          var r, uid := TokenLogin(t, token, fd, stillExists, closes);
        case LogoutRequest(fd, closed) =>
          var r, deleted := Logout(t, fd, closed);
        case Closed(fd) =>
          var found := t.DelFd(fd);
      }
    }
  }
}
