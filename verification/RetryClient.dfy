/** The HTTP client's response interceptor: when one API call is sent again, and how often. */
module RetryClient {
  import opened Sequences

  /** How one send ends. An error may come without a response, or even without its request's config. */
  datatype Reply = Success | HttpError(status: int) | NoResponse | NoConfig

  /** What a silent sign-in after a 401 would do: not be tried at all, give a token, give none, or throw. */
  datatype Renewal = Unavailable | Renewed(token: string) | NoToken | Throws

  /** The world's side of a call: the reply to each send and the renewal each reply would meet. */
  datatype Script = Script(replies: nat -> Reply, renewals: nat -> Renewal)

  datatype Reason = First | AfterRenewal | AfterTransient

  /** One send: why, and with which bearer token. */
  datatype Send = Send(reason: Reason, bearer: Option<string>)

  const IDEMPOTENT_METHODS: set<string> := {"get", "head", "options", "put"}

  const MAX_TRANSIENT_RETRIES: nat := 2

  predicate Unauthorized(reply: Reply) { reply == HttpError(401) }

  /** No status, or a gateway error. A status of 0 counts as none. */
  predicate Transient(reply: Reply) {
    reply.NoResponse? || (reply.HttpError? && (reply.status == 0 || 502 <= reply.status <= 504))
  }

  /** How many more sends the marks on the config allow. */
  function Budget(retried: bool, retryCount: nat): nat {
    (if retried then 0 else 1) + if retryCount <= MAX_TRANSIENT_RETRIES then MAX_TRANSIENT_RETRIES - retryCount else 0
  }

  /** How a call goes on after send `k`: the further sends, the reply the caller gets, and whether the
      session was given up. */
  datatype Course = Course(again: seq<Send>, reply: Reply, loggedOut: bool)

  /** The course after send `k`, which carried `bearer`, given the marks on the config. */
  function CourseOf(script: Script, idempotent: bool, k: nat, retried: bool, retryCount: nat, bearer: Option<string>):
    (c: Course)
    ensures |c.again| <= Budget(retried, retryCount)
    ensures !idempotent ==> |c.again| <= if retried then 0 else 1
    decreases Budget(retried, retryCount)
  {
    var reply := script.replies(k);
    if Unauthorized(reply) && !retried then
      match script.renewals(k)
      case Unavailable => Course([], reply, false)
      case Renewed(token) =>
        if token == "" then Course([], reply, true)
        else Before(Send(AfterRenewal, Some(token)), CourseOf(script, idempotent, k + 1, true, retryCount, Some(token)))
      case _ => Course([], reply, true)
    else if Transient(reply) && idempotent && retryCount < MAX_TRANSIENT_RETRIES then
      Before(Send(AfterTransient, bearer), CourseOf(script, idempotent, k + 1, retried, retryCount + 1, bearer))
    else Course([], reply, false)
  }

  function Before(send: Send, c: Course): Course { c.(again := [send] + c.again) }

  function CountReason(sends: seq<Send>, reason: Reason): nat {
    if sends == [] then 0 else (if sends[0].reason == reason then 1 else 0) + CountReason(sends[1..], reason)
  }

  /** Why a send follows the reply to the one before, which carried `bearer`. */
  predicate Justified(send: Send, script: Script, idempotent: bool, k: nat, bearer: Option<string>) {
    match send.reason
    case First => false
    case AfterRenewal =>
      && Unauthorized(script.replies(k)) && script.renewals(k).Renewed?
      && send.bearer == Some(script.renewals(k).token)
    case AfterTransient => Transient(script.replies(k)) && idempotent && send.bearer == bearer
  }

  /** The course after its first further send, which leaves its mark on the config. */
  ghost function Onward(script: Script, idempotent: bool, k: nat, retried: bool, retryCount: nat, sent: Send): Course {
    CourseOf(script, idempotent, k + 1, retried || sent.reason == AfterRenewal,
             if sent.reason == AfterTransient then retryCount + 1 else retryCount, sent.bearer)
  }

  lemma CourseStep(script: Script, idempotent: bool, k: nat, retried: bool, retryCount: nat, bearer: Option<string>)
    ensures var c := CourseOf(script, idempotent, k, retried, retryCount, bearer);
            if c.again == [] then c.reply == script.replies(k) && (c.loggedOut ==> Unauthorized(c.reply) && !retried)
            else
              && c == Before(c.again[0], Onward(script, idempotent, k, retried, retryCount, c.again[0]))
              && Justified(c.again[0], script, idempotent, k, bearer)
              && (c.again[0].reason == AfterRenewal ==> !retried && c.again[0].bearer != Some(""))
              && (c.again[0].reason == AfterTransient ==> retryCount < MAX_TRANSIENT_RETRIES)
  {
  }

  /** Whatever the replies and renewals: each further send answers the reply before it, with a token
      renewed for it or the same token as before, and the caller gets the reply to the last send. */
  lemma {:induction false} CourseJustified(script: Script, idempotent: bool, k: nat, retried: bool, retryCount: nat,
                                           bearer: Option<string>)
    ensures var c := CourseOf(script, idempotent, k, retried, retryCount, bearer);
            && c.reply == script.replies(k + |c.again|)
            && forall i | 0 <= i < |c.again| ::
                 Justified(c.again[i], script, idempotent, k + i, if i == 0 then bearer else c.again[i - 1].bearer)
    decreases Budget(retried, retryCount)
  {
    var c := CourseOf(script, idempotent, k, retried, retryCount, bearer);
    CourseStep(script, idempotent, k, retried, retryCount, bearer);
    if c.again != [] {
      var sent := c.again[0];
      CourseJustified(script, idempotent, k + 1, retried || sent.reason == AfterRenewal,
                      if sent.reason == AfterTransient then retryCount + 1 else retryCount, sent.bearer);
      var tail := Onward(script, idempotent, k, retried, retryCount, sent).again;
      forall i | 0 < i < |c.again|
        ensures Justified(c.again[i], script, idempotent, k + i, c.again[i - 1].bearer)
      {
        assert c.again[i] == tail[i - 1] && (i > 1 ==> c.again[i - 1] == tail[i - 2]);
        assert k + i == k + 1 + (i - 1);
      }
    }
  }

  /** At most one further send follows a renewal, at most two follow transient errors, none of those for
      a method that is not idempotent; the session is given up only over a first 401. */
  lemma {:induction false} CourseCounts(script: Script, idempotent: bool, k: nat, retried: bool, retryCount: nat,
                                        bearer: Option<string>)
    ensures var c := CourseOf(script, idempotent, k, retried, retryCount, bearer);
            && CountReason(c.again, AfterRenewal) <= (if retried then 0 else 1)
            && CountReason(c.again, AfterTransient) <= (if idempotent then Budget(true, retryCount) else 0)
            && |c.again| == CountReason(c.again, AfterRenewal) + CountReason(c.again, AfterTransient)
            && (c.loggedOut ==> !retried && Unauthorized(c.reply) && CountReason(c.again, AfterRenewal) == 0)
    decreases Budget(retried, retryCount)
  {
    var c := CourseOf(script, idempotent, k, retried, retryCount, bearer);
    CourseStep(script, idempotent, k, retried, retryCount, bearer);
    if c.again != [] {
      var sent := c.again[0];
      CourseCounts(script, idempotent, k + 1, retried || sent.reason == AfterRenewal,
                   if sent.reason == AfterTransient then retryCount + 1 else retryCount, sent.bearer);
      assert c.again[1..] == Onward(script, idempotent, k, retried, retryCount, sent).again;
    }
  }

  /** The caller is never refused a send the marks allow: the last reply is a success, or cannot be retried. */
  lemma {:induction false} NothingLeftToTry(script: Script, idempotent: bool, k: nat, retried: bool, retryCount: nat,
                                            bearer: Option<string>)
    ensures var c := CourseOf(script, idempotent, k, retried, retryCount, bearer);
            var last := k + |c.again|;
            && (Transient(c.reply) && idempotent ==>
                  retryCount + CountReason(c.again, AfterTransient) >= MAX_TRANSIENT_RETRIES)
            && (Unauthorized(c.reply) && !retried && CountReason(c.again, AfterRenewal) == 0 ==>
                  (!script.renewals(last).Renewed? || script.renewals(last).token == "")
                  && (c.loggedOut <==> script.renewals(last) != Unavailable))
    decreases Budget(retried, retryCount)
  {
    var c := CourseOf(script, idempotent, k, retried, retryCount, bearer);
    if c.again != [] {
      var sent := c.again[0];
      CourseStep(script, idempotent, k, retried, retryCount, bearer);
      NothingLeftToTry(script, idempotent, k + 1, retried || sent.reason == AfterRenewal,
                       if sent.reason == AfterTransient then retryCount + 1 else retryCount, sent.bearer);
      assert c.again[1..] == Onward(script, idempotent, k, retried, retryCount, sent).again;
    }
  }

  /** Four sends can happen: two gateway errors, an expired token renewed, then any end. */
  lemma FourSendsHappen(script: Script, token: string)
    requires script.replies(0) == script.replies(1) == HttpError(503) && script.replies(2) == HttpError(401)
    requires script.renewals(2) == Renewed(token) && token != ""
    ensures |CourseOf(script, true, 0, false, 0, None).again| == 3
  {
    assert CourseOf(script, true, 3, true, 2, Some(token)).again == [];
    assert |CourseOf(script, true, 2, false, 2, None).again| == 1;
    assert |CourseOf(script, true, 1, false, 1, None).again| == 2;
  }

  /** What the auth store holds after some sends: each renewed token replaces the one before. */
  function TokenAfter(token: Option<string>, sends: seq<Send>): Option<string>
    decreases |sends|
  {
    if sends == [] then token
    else TokenAfter(if sends[0].reason == AfterRenewal then sends[0].bearer else token, sends[1..])
  }

  lemma TokenAfterOne(token: Option<string>, sent: Send, again: seq<Send>)
    ensures TokenAfter(token, [sent] + again) ==
            TokenAfter(if sent.reason == AfterRenewal then sent.bearer else token, again)
  {
    assert ([sent] + again)[1..] == again;
  }

  /** Without a renewal the stored token stays; after one it is the renewed token. */
  lemma {:induction false} TokenAfterMeaning(token: Option<string>, sends: seq<Send>)
    requires CountReason(sends, AfterRenewal) <= 1
    ensures CountReason(sends, AfterRenewal) == 0 ==> TokenAfter(token, sends) == token
    ensures forall i | 0 <= i < |sends| && sends[i].reason == AfterRenewal ::
              TokenAfter(token, sends) == sends[i].bearer
    decreases |sends|
  {
    if sends != [] {
      var next := if sends[0].reason == AfterRenewal then sends[0].bearer else token;
      TokenAfterMeaning(next, sends[1..]);
      NoRenewalLeft(sends[1..]);
    }
  }

  lemma {:induction false} NoRenewalLeft(sends: seq<Send>)
    ensures CountReason(sends, AfterRenewal) == 0 ==>
              forall i | 0 <= i < |sends| :: sends[i].reason != AfterRenewal
  {
    if sends != [] { NoRenewalLeft(sends[1..]); }
  }

  /** One API call: the config's marks, the auth store's token, and what has been sent. */
  class ApiCall {
    const script: Script
    const idempotent: bool
    var retried: bool
    var retryCount: nat
    var token: Option<string>
    var authorization: Option<string>
    var sends: seq<Send>
    var logouts: nat

    constructor (script: Script, httpMethod: string, token: Option<string>)
      ensures this.script == script && idempotent == (httpMethod in IDEMPOTENT_METHODS) && this.token == token
      ensures !retried && retryCount == 0 && sends == [] && logouts == 0 && authorization == None
    {
      this.script, this.idempotent, this.token := script, httpMethod in IDEMPOTENT_METHODS, token;
      retried, retryCount, authorization, sends, logouts := false, 0, None, [], 0;
    }

    /** The request interceptor: a real token in the store overrides the header. */
    function Bearer(): Option<string> reads this`token, this`authorization {
      if token.Some? && token.value != "" && token.value != "no-sso" then token else authorization
    }

    ghost function Course(k: nat, bearer: Option<string>): Course
      reads this`retried, this`retryCount
    {
      CourseOf(script, idempotent, k, retried, retryCount, bearer)
    }

    /** `apiClient(config)`: send, and let the interceptors settle the outcome. */
    method Request(reason: Reason) returns (reply: Reply)
      modifies this
      ensures var course := old(Course(|sends|, Bearer()));
              && sends == old(sends) + [Send(reason, old(Bearer()))] + course.again
              && reply == course.reply
              && logouts == old(logouts) + (if course.loggedOut then 1 else 0)
              && token == (if course.loggedOut then None else TokenAfter(old(token), course.again))
      decreases Budget(retried, retryCount), 2
    {
      var k := |sends|;
      authorization := Bearer();
      sends := sends + [Send(reason, authorization)];
      reply := script.replies(k);
      if reply != Success { reply := OnError(k, reply); }
    }

    /** The response error interceptor. */
    method OnError(k: nat, error: Reply) returns (reply: Reply)
      requires |sends| == k + 1 && error == script.replies(k) != Success && authorization == Bearer()
      modifies this
      ensures var course := old(Course(k, authorization));
              && sends == old(sends) + course.again
              && reply == course.reply
              && logouts == old(logouts) + (if course.loggedOut then 1 else 0)
              && token == (if course.loggedOut then None else TokenAfter(old(token), course.again))
      decreases Budget(retried, retryCount), 1
    {
      if error == NoConfig { return error; }
      if error == HttpError(401) && !retried {
        reply := Renew(k, error);
        return;
      }
      if Transient(error) && idempotent && retryCount < MAX_TRANSIENT_RETRIES {
        retryCount := retryCount + 1;
        ghost var sent, next := Send(AfterTransient, authorization), Course(k + 1, authorization);
        TokenAfterOne(token, sent, next.again);
        reply := Request(AfterTransient);
        return;
      }
      return error;
    }

    /** The 401 branch: renew the token and send again, or give the session up. */
    method Renew(k: nat, error: Reply) returns (reply: Reply)
      requires |sends| == k + 1 && error == script.replies(k) == HttpError(401) && !retried
      modifies this
      ensures var course := old(Course(k, authorization));
              && sends == old(sends) + course.again
              && reply == course.reply
              && logouts == old(logouts) + (if course.loggedOut then 1 else 0)
              && token == (if course.loggedOut then None else TokenAfter(old(token), course.again))
      decreases Budget(retried, retryCount), 0
    {
      var renewal := script.renewals(k);
      if renewal == Unavailable { return error; }
      retried := true;
      if renewal.Renewed? && renewal.token != "" {
        token, authorization := Some(renewal.token), Some(renewal.token);
        ghost var sent, next := Send(AfterRenewal, authorization), Course(k + 1, authorization);
        TokenAfterOne(old(token), sent, next.again);
        reply := Request(AfterRenewal);
        return;
      }
      token, logouts := None, logouts + 1;
      return error;
    }
  }

  /** The methods that may be sent again after a transient error, one by one. */
  lemma IdempotentMeaning(httpMethod: string)
    ensures httpMethod in IDEMPOTENT_METHODS <==>
            httpMethod == "get" || httpMethod == "head" || httpMethod == "options" || httpMethod == "put"
  {
  }

  /** Send `i` and the reply to the send before it: only an expired token or a missing, 0, 502, 503 or 504
      status is followed by another send, which carries the renewed token or the one before. */
  ghost predicate Follows(script: Script, sends: seq<Send>, i: nat)
    requires 1 <= i < |sends|
  {
    var before, sent := script.replies(i - 1), sends[i];
    if before == HttpError(401) then
      && sent.reason == AfterRenewal && script.renewals(i - 1).Renewed? && script.renewals(i - 1).token != ""
      && sent.bearer == Some(script.renewals(i - 1).token)
    else
      && sent.reason == AfterTransient && sent.bearer == sends[i - 1].bearer
      && (before == NoResponse || before == HttpError(0) || before == HttpError(502) || before == HttpError(503)
          || before == HttpError(504))
  }

  lemma FollowsFromCourse(script: Script, idempotent: bool, bearer: Option<string>, sends: seq<Send>, i: nat)
    requires var course := CourseOf(script, idempotent, 0, false, 0, bearer);
             sends == [Send(First, bearer)] + course.again
    requires 1 <= i < |sends|
    ensures Follows(script, sends, i)
  {
    CourseJustified(script, idempotent, 0, false, 0, bearer);
    RenewedTokensAreReal(script, idempotent, 0, false, 0, bearer);
    var again := CourseOf(script, idempotent, 0, false, 0, bearer).again;
    assert sends[i] == again[i - 1] && (i > 1 ==> sends[i - 1] == again[i - 2]);
  }

  ghost predicate RealTokens(sends: seq<Send>) {
    forall i | 0 <= i < |sends| && sends[i].reason == AfterRenewal :: sends[i].bearer != Some("")
  }

  lemma {:induction false} RenewedTokensAreReal(script: Script, idempotent: bool, k: nat, retried: bool,
                                                retryCount: nat, bearer: Option<string>)
    ensures RealTokens(CourseOf(script, idempotent, k, retried, retryCount, bearer).again)
    decreases Budget(retried, retryCount)
  {
    var c := CourseOf(script, idempotent, k, retried, retryCount, bearer);
    if c.again != [] {
      var sent := c.again[0];
      CourseStep(script, idempotent, k, retried, retryCount, bearer);
      RenewedTokensAreReal(script, idempotent, k + 1, retried || sent.reason == AfterRenewal,
                           if sent.reason == AfterTransient then retryCount + 1 else retryCount, sent.bearer);
      var tail := Onward(script, idempotent, k, retried, retryCount, sent).again;
      assert RealTokens(tail) && c.again == [sent] + tail;
    }
  }

  /** What the course of a call says of all its sends. */
  lemma SendsOfCall(script: Script, idempotent: bool, bearer: Option<string>, sends: seq<Send>, course: Course)
    requires course == CourseOf(script, idempotent, 0, false, 0, bearer)
    requires sends == [Send(First, bearer)] + course.again
    ensures 1 <= |sends| <= 4 && course.reply == script.replies(|sends| - 1)
    ensures forall i | 1 <= i < |sends| :: Follows(script, sends, i)
    ensures CountReason(sends, AfterRenewal) <= 1 && CountReason(sends, AfterTransient) <= 2
    ensures !idempotent ==> |sends| <= 2 && CountReason(sends, AfterTransient) == 0
    ensures idempotent && Transient(course.reply) ==> CountReason(sends, AfterTransient) == 2
    ensures course.reply == HttpError(401) && CountReason(sends, AfterRenewal) == 0 ==>
              !script.renewals(|sends| - 1).Renewed? || script.renewals(|sends| - 1).token == ""
    ensures course.loggedOut <==> course.reply == HttpError(401) && CountReason(sends, AfterRenewal) == 0
                                  && script.renewals(|sends| - 1) != Unavailable
  {
    assert sends[1..] == course.again;
    CourseJustified(script, idempotent, 0, false, 0, bearer);
    CourseCounts(script, idempotent, 0, false, 0, bearer);
    NothingLeftToTry(script, idempotent, 0, false, 0, bearer);
    forall i | 1 <= i < |sends| ensures Follows(script, sends, i) {
      FollowsFromCourse(script, idempotent, bearer, sends, i);
    }
  }

  /** A whole API call, from its methods and statuses alone: how often it is sent and with which token,
      which reply the caller gets, and whether the session is given up. */
  method Call(script: Script, httpMethod: string, token: Option<string>)
    returns (reply: Reply, sends: seq<Send>, logouts: nat, stored: Option<string>)
    ensures 1 <= |sends| <= 4 && sends[0].reason == First && reply == script.replies(|sends| - 1)
    ensures sends[0].bearer == if token == None || token == Some("") || token == Some("no-sso") then None else token
    ensures forall i | 1 <= i < |sends| :: Follows(script, sends, i)
    ensures CountReason(sends, AfterRenewal) <= 1 && CountReason(sends, AfterTransient) <= 2
    ensures httpMethod != "get" && httpMethod != "head" && httpMethod != "options" && httpMethod != "put" ==>
              |sends| <= 2 && CountReason(sends, AfterTransient) == 0
    ensures httpMethod == "get" || httpMethod == "head" || httpMethod == "options" || httpMethod == "put" ==>
              reply == NoResponse || reply == HttpError(0) || reply == HttpError(502) || reply == HttpError(503)
              || reply == HttpError(504) ==>
                CountReason(sends, AfterTransient) == 2
    ensures reply == HttpError(401) && CountReason(sends, AfterRenewal) == 0 ==>
              !script.renewals(|sends| - 1).Renewed? || script.renewals(|sends| - 1).token == ""
    ensures logouts == if reply == HttpError(401) && CountReason(sends, AfterRenewal) == 0
                          && script.renewals(|sends| - 1) != Unavailable then 1 else 0
    ensures logouts == 1 ==> stored == None
    ensures logouts == 0 && CountReason(sends, AfterRenewal) == 0 ==> stored == token
    ensures forall i | 1 <= i < |sends| && sends[i].reason == AfterRenewal :: stored == sends[i].bearer
  {
    var call := new ApiCall(script, httpMethod, token);
    ghost var bearer, idempotent := call.Bearer(), call.idempotent;
    reply := call.Request(First);
    sends, logouts, stored := call.sends, call.logouts, call.token;
    ghost var course := CourseOf(script, idempotent, 0, false, 0, bearer);
    SendsOfCall(script, idempotent, bearer, sends, course);
    TokenAfterOne(token, sends[0], course.again);
    TokenAfterMeaning(token, sends);
    NoRenewalLeft(sends);
    IdempotentMeaning(httpMethod);
  }
}
