/**
 The decisions of the `/api/send-report` handler (api/index.py:82-109): which status it
 answers with and which message, if any, it asks the Bot API to send. The Flask request,
 the TeleBot client and `jsonify` are reduced to the values below.
 */
module SendReport {
  import opened Wrappers
  import opened Json
  import InitData
  import Query

  /** What `request.get_json()` yields: the decoded body, or Unreadable where it raises. */
  datatype Request = Body(data: Value) | Unreadable

  /** One `bot.send_message(chat_id, report)` call; `chatId` is None where Python passes `None`. */
  datatype Send = Send(chatId: Option<Value>, text: Value)

  /** How the Bot API call ended. */
  datatype Delivery = Delivered | Raised(message: string)

  /** Where an exception caught by the handler's `except Exception` was raised. */
  datatype Fault =
    | RequestUnreadable
    | BodyNotObject
    | ClaimNotObject
    | SendFailed(message: string)

  datatype Error =
    | BotNotInitialized
    | MissingData
    | InvalidInitData
    | Internal(fault: Fault)

  /** The JSON body: `{success: true}` or `{success: false, error: ...}`. */
  datatype Reply = Success | Failure(error: Error)

  datatype Response = Response(status: int, reply: Reply, sends: seq<Send>)

  /** `bot` is created only for a non-empty `BOT_TOKEN`. */
  predicate BotConfigured(botToken: Option<string>)
  {
    botToken.Some? && botToken.value != ""
  }

  /**
   `validate_init_data(init_data)` on whatever JSON value arrived: anything but a string
   makes `parse_qs` raise inside the validator, which answers None.
   */
  function Claim(prim: InitData.Primitives, botToken: Option<string>, initData: Value): (c: Option<Value>)
    ensures c.Some? ==> initData.Str? && botToken.Some?
    ensures c.Some? ==> InitData.Authentic(prim, botToken.value, Query.ParseQsl(initData.s, prim.unquote))
  {
    match initData
    case Str(s) => InitData.ValidateInitData(prim, botToken, s)
    case _ => None
  }

  /**
   The request passed every check of the handler: the bot is set up, the body is an
   object with truthy `initData` and `report`, and `initData` validates to a truthy object.
   */
  predicate Authorised(prim: InitData.Primitives, botToken: Option<string>, request: Request): (ok: bool)
    ensures ok ==> BotConfigured(botToken) && request.Body? && request.data.Object?
    ensures ok ==> var initData := Get(request.data.members, "initData");
                   initData.Some? && initData.value.Str? &&
                   InitData.Authentic(prim, botToken.value, Query.ParseQsl(initData.value.s, prim.unquote))
  {
    && BotConfigured(botToken)
    && request.Body? && request.data.Object?
    && TruthyOpt(Get(request.data.members, "initData"))
    && TruthyOpt(Get(request.data.members, "report"))
    && var claim := Claim(prim, botToken, Get(request.data.members, "initData").value);
       TruthyOpt(claim) && claim.value.Object?
  }

  /**
   `user.get('id')` as Python sees it: a missing `id` and an `id` of JSON null are both
   `None`, so both make the same `send_message` call.
   */
  function ChatId(claim: seq<(string, Value)>): (id: Option<Value>)
    ensures id.Some? ==> id.value != Null && Get(claim, "id") == id
    ensures id.None? <==> !Get(claim, "id").Some? || Get(claim, "id").value == Null
  {
    match Get(claim, "id")
    case Some(Null) => None
    case other => other
  }

  /** The one message an authorised request sends: the report, verbatim, to the claim's `id`. */
  function ReportSend(prim: InitData.Primitives, botToken: Option<string>, request: Request): Send
    requires Authorised(prim, botToken, request)
  {
    var claim := Claim(prim, botToken, Get(request.data.members, "initData").value).value;
    Send(ChatId(claim.members), Get(request.data.members, "report").value)
  }

  /**
   `send_report()`. `deliver` stands for the Bot API call and says how it ended.
   The contract is the handler's promise: one of four statuses; at most one send, made only
   for an authorised request and carrying its report to its claim's `id`; 200 exactly when
   that send was delivered; and an unset bot answers 500 before anything else is looked at.
   */
  function HandleSendReport(prim: InitData.Primitives, botToken: Option<string>,
                            deliver: Send -> Delivery, request: Request): (r: Response)
    ensures r.status in {200, 400, 403, 500}
    ensures |r.sends| <= 1
    ensures |r.sends| == 1 <==> Authorised(prim, botToken, request)
    ensures |r.sends| == 1 ==> r.sends[0] == ReportSend(prim, botToken, request)
    ensures r.status == 200 <==> |r.sends| == 1 && deliver(r.sends[0]) == Delivered
    ensures r.status == 200 <==> r.reply == Success
    ensures !BotConfigured(botToken) ==> r == Response(500, Failure(BotNotInitialized), [])
    ensures BotConfigured(botToken) && request.Unreadable? ==>
              r == Response(500, Failure(Internal(RequestUnreadable)), [])
    ensures BotConfigured(botToken) && request.Body? && !request.data.Object? ==>
              r == Response(500, Failure(Internal(BodyNotObject)), [])
  {
    if !BotConfigured(botToken) then Response(500, Failure(BotNotInitialized), [])
    else
      match request
      case Unreadable => Response(500, Failure(Internal(RequestUnreadable)), [])
      case Body(data) =>
        if !data.Object? then Response(500, Failure(Internal(BodyNotObject)), [])
        else
          var initData := Get(data.members, "initData");
          var report := Get(data.members, "report");
          if !TruthyOpt(initData) || !TruthyOpt(report) then Response(400, Failure(MissingData), [])
          else
            var user := Claim(prim, botToken, initData.value);
            if !TruthyOpt(user) then Response(403, Failure(InvalidInitData), [])
            else if !user.value.Object? then Response(500, Failure(Internal(ClaimNotObject)), [])
            else
              var send := Send(ChatId(user.value.members), report.value);
              match deliver(send)
              case Delivered => Response(200, Success, [send])
              case Raised(message) => Response(500, Failure(Internal(SendFailed(message))), [send])
  }

  // ---------------------------------------------------------------------------
  // The order of the checks

  /** A body without a truthy `initData` or `report` gets 400, whatever validation would say. */
  lemma MissingDataIsBadRequest(prim: InitData.Primitives, botToken: Option<string>,
                                deliver: Send -> Delivery, members: seq<(string, Value)>)
    requires BotConfigured(botToken)
    requires !TruthyOpt(Get(members, "initData")) || !TruthyOpt(Get(members, "report"))
    ensures HandleSendReport(prim, botToken, deliver, Body(Object(members)))
            == Response(400, Failure(MissingData), [])
  {
  }

  /** Init-data that does not validate gets 403 and sends nothing. */
  lemma RejectedInitDataIsForbidden(prim: InitData.Primitives, botToken: Option<string>,
                                    deliver: Send -> Delivery, members: seq<(string, Value)>)
    requires BotConfigured(botToken)
    requires TruthyOpt(Get(members, "initData")) && TruthyOpt(Get(members, "report"))
    requires !TruthyOpt(Claim(prim, botToken, Get(members, "initData").value))
    ensures HandleSendReport(prim, botToken, deliver, Body(Object(members)))
            == Response(403, Failure(InvalidInitData), [])
  {
  }

  /**
   Init-data that validates to a truthy value other than an object makes `user.get('id')`
   raise: the handler answers 500 and sends nothing.
   */
  lemma NonObjectClaimIsInternalError(prim: InitData.Primitives, botToken: Option<string>,
                                      deliver: Send -> Delivery, members: seq<(string, Value)>)
    requires BotConfigured(botToken)
    requires TruthyOpt(Get(members, "initData")) && TruthyOpt(Get(members, "report"))
    requires TruthyOpt(Claim(prim, botToken, Get(members, "initData").value))
    requires !Claim(prim, botToken, Get(members, "initData").value).value.Object?
    ensures HandleSendReport(prim, botToken, deliver, Body(Object(members)))
            == Response(500, Failure(Internal(ClaimNotObject)), [])
  {
  }

  /**
   A signed payload without a `user` field validates to `json.loads("{}")`, an empty
   object, which is falsy: the handler answers 403 and sends nothing.
   */
  lemma NoUserFieldIsForbidden(prim: InitData.Primitives, token: string, deliver: Send -> Delivery,
                               members: seq<(string, Value)>, initData: string)
    requires token != ""
    requires prim.loads("{}") == Some(Object([]))
    requires Get(members, "initData") == Some(Str(initData)) && initData != ""
    requires TruthyOpt(Get(members, "report"))
    requires var pairs := Query.ParseQsl(initData, prim.unquote);
             forall i :: 0 <= i < |pairs| ==> pairs[i].0 != "user"
    requires InitData.Authentic(prim, token, Query.ParseQsl(initData, prim.unquote))
    ensures HandleSendReport(prim, Some(token), deliver, Body(Object(members)))
            == Response(403, Failure(InvalidInitData), [])
  {
    var v := Get(members, "initData").value;
    assert Claim(prim, Some(token), v) == Some(Object([])) by {
      InitData.UserlessClaim(prim, token, Query.ParseQsl(initData, prim.unquote));
    }
    RejectedInitDataIsForbidden(prim, Some(token), deliver, members);
  }

  /** A payload whose hash does not match its check-string gets 403 and sends nothing. */
  lemma TamperedInitDataIsForbidden(prim: InitData.Primitives, token: string, deliver: Send -> Delivery,
                                    members: seq<(string, Value)>, initData: string)
    requires token != ""
    requires Get(members, "initData") == Some(Str(initData)) && initData != ""
    requires TruthyOpt(Get(members, "report"))
    requires !InitData.Authentic(prim, token, Query.ParseQsl(initData, prim.unquote))
    ensures HandleSendReport(prim, Some(token), deliver, Body(Object(members)))
            == Response(403, Failure(InvalidInitData), [])
  {
    assert Claim(prim, Some(token), Str(initData)) == None;
    RejectedInitDataIsForbidden(prim, Some(token), deliver, members);
  }

  /** An authorised request makes its one send; the answer is 200 if it is delivered. */
  lemma AuthorisedDelivered(prim: InitData.Primitives, botToken: Option<string>,
                            deliver: Send -> Delivery, request: Request)
    requires Authorised(prim, botToken, request)
    requires deliver(ReportSend(prim, botToken, request)) == Delivered
    ensures HandleSendReport(prim, botToken, deliver, request)
            == Response(200, Success, [ReportSend(prim, botToken, request)])
  {
  }

  /** When the Bot API call raises, the answer is 500 carrying its message; the send was still attempted. */
  lemma AuthorisedSendRaised(prim: InitData.Primitives, botToken: Option<string>,
                             deliver: Send -> Delivery, request: Request, message: string)
    requires Authorised(prim, botToken, request)
    requires deliver(ReportSend(prim, botToken, request)) == Raised(message)
    ensures HandleSendReport(prim, botToken, deliver, request)
            == Response(500, Failure(Internal(SendFailed(message))), [ReportSend(prim, botToken, request)])
  {
  }

  /**
   A validated claim `{"id": 42}` and report "total: $10": exactly one send, to chat 42
   with the report verbatim, and 200 when the Bot API accepts it.
   */
  lemma ReportReachesClaimedChat(prim: InitData.Primitives, token: string, deliver: Send -> Delivery,
                                 initData: string)
    requires token != ""
    requires initData != ""
    requires InitData.ValidateInitData(prim, Some(token), initData) == Some(Object([("id", Int(42))]))
    requires deliver(Send(Some(Int(42)), Str("total: $10"))) == Delivered
    ensures HandleSendReport(prim, Some(token), deliver,
                             Body(Object([("initData", Str(initData)), ("report", Str("total: $10"))])))
            == Response(200, Success, [Send(Some(Int(42)), Str("total: $10"))])
  {
    var members := [("initData", Str(initData)), ("report", Str("total: $10"))];
    assert members[..1] == [("initData", Str(initData))];
    assert Get(members, "initData") == Some(Str(initData));
    assert Get(members, "report") == Some(Str("total: $10"));
    var claim := [("id", Int(42))];
    assert Get(claim, "id") == Some(Int(42));
    assert ChatId(claim) == Some(Int(42));
    var request := Body(Object(members));
    assert BotConfigured(Some(token));
    assert TruthyOpt(Get(members, "initData"));
    assert TruthyOpt(Get(members, "report"));
    var c := Claim(prim, Some(token), Str(initData));
    assert c == Some(Object(claim));
    assert Claim(prim, Some(token), Get(request.data.members, "initData").value) == c;
    assert Authorised(prim, Some(token), request);
    assert ReportSend(prim, Some(token), request) == Send(Some(Int(42)), Str("total: $10"));
    AuthorisedDelivered(prim, Some(token), deliver, request);
  }
}
