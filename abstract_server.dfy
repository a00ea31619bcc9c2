/** The request handling shared by the TCP, UDP and RMI front ends: the
    length check on request tokens, dispatch on the instruction, and the
    acknowledgement strings; and, for the TCP front end, the reply to one
    line. Store calls other than get are not part of these functions: see
    KeyValueStores.KeyValueStore.Put and Delete. */
module Servers {
  import opened JavaLang
  import opened KeyValueStores
  import opened ResponseValidators
  import Clients

  /** The longest token the protocol admits. */
  const MAX_INPUT_LENGTH := 25

  /** No token is longer than the protocol admits, counting, as
      String.length does, UTF-16 code units. */
  predicate WithinLength(tokens: seq<string>) {
    forall k :: 0 <= k < |tokens| ==> Utf16Length(tokens[k]) <= MAX_INPUT_LENGTH
  }

  /** validateLength: scans the tokens and stops at the first one that is
      too long. */
  method ValidateLength(tokens: seq<string>) returns (ok: bool)
    ensures ok <==> WithinLength(tokens)
    ensures !ok ==> exists k :: 0 <= k < |tokens| && Utf16Length(tokens[k]) > MAX_INPUT_LENGTH
  {
    for i := 0 to |tokens|
      invariant forall k :: 0 <= k < i ==> Utf16Length(tokens[k]) <= MAX_INPUT_LENGTH
    {
      if Utf16Length(tokens[i]) > MAX_INPUT_LENGTH {
        return false;
      }
    }
    return true;
  }

  /** A summary for the server's log and the acknowledgement for the client. */
  datatype RequestResult = RequestResult(result: string, returnMessage: string)

  /** handlePutRequest: exactly three tokens, or no result. */
  function HandlePutRequest(request: seq<string>): (r: Option<RequestResult>)
    ensures r.Some? <==> |request| == 3
  {
    if |request| != 3 then None
    else Some(RequestResult("Put key=" + request[1] + " value=" + request[2],
                            "PUT " + request[1] + " " + request[2]))
  }

  /** The text a GET reply shows for what get returned. */
  function ValueText(v: Option<string>): (x: string) {
    if v.None? then "[NULL]" else v.value
  }

  /** handleGetRequest: exactly two tokens, or no result. A missing key is
      reported as the text [NULL]. */
  function HandleGetRequest(request: seq<string>, kv: Entries): (r: Option<RequestResult>)
    ensures r.Some? <==> |request| == 2
    // The reply carries the stored value, or [NULL] for a missing key
    // (and for a key stored with null).
    ensures r.Some? ==> r.value.returnMessage == "GET KEY: " + request[1] + " VAL: " + ValueText(Lookup(kv, Some(request[1])))
  {
    if |request| != 2 then None
    else
      var value := ValueText(Lookup(kv, Some(request[1])));
      Some(RequestResult("Returned value=" + value + " for key=" + request[1],
                         "GET KEY: " + request[1] + " VAL: " + value))
  }

  /** handleDeleteRequest: exactly two tokens, or no result. */
  function HandleDeleteRequest(request: seq<string>): (r: Option<RequestResult>)
    ensures r.Some? <==> |request| == 2
  {
    if |request| != 2 then None
    else Some(RequestResult("Deleted key=" + request[1], "DEL " + request[1]))
  }

  /** Dispatch on the instruction token of a non-empty request. */
  function Dispatch(request: seq<string>, kv: Entries): (r: Option<RequestResult>)
    requires |request| > 0
    ensures request[0] !in {"PUT", "GET", "DEL"} ==> r == None
    ensures r.Some? ==> (request[0] == "PUT" && |request| == 3) || (request[0] in {"GET", "DEL"} && |request| == 2)
  {
    match request[0]
    case "PUT" => HandlePutRequest(request)
    case "GET" => HandleGetRequest(request, kv)
    case "DEL" => HandleDeleteRequest(request)
    case _ => None
  }

  /** handleIndividualRequest as written: it reads the instruction token
      without checking that there is one, so an empty token array throws. */
  function HandleIndividualRequest(request: seq<string>, kv: Entries): (r: Outcome<Option<RequestResult>>)
    ensures r.Thrown? <==> |request| == 0
    ensures r.Thrown? ==> r.exception == ArrayIndexOutOfBounds
    ensures |request| > 0 ==> r == Returned(Dispatch(request, kv))
  {
    if |request| == 0 then Thrown(ArrayIndexOutOfBounds) else Returned(Dispatch(request, kv))
  }

  /** The request handling with the missing check added: a request without
      tokens is invalid, like any other unknown instruction. */
  function HandleRequest(request: seq<string>, kv: Entries): (r: Option<RequestResult>)
    ensures |request| == 0 ==> r == None
    ensures |request| > 0 ==> r == Dispatch(request, kv)
  {
    if |request| == 0 then None else Dispatch(request, kv)
  }

  /** The TCP server's answer to one received line, as written: a line with
      an over-long token gets ERROR, a handled request its acknowledgement,
      anything else ERROR; the exception escapes the service loop. */
  function TcpReplyAsWritten(line: string, kv: Entries): (r: Outcome<string>)
    ensures r.Thrown? <==> Split(line) == []
    ensures r.Thrown? ==> r.exception == ArrayIndexOutOfBounds
    ensures !WithinLength(Split(line)) ==> r == Returned("ERROR")
  {
    var tokens := Split(line);
    if !WithinLength(tokens) then Returned("ERROR")
    else match HandleIndividualRequest(tokens, kv)
      case Thrown(e) => Thrown(e)
      case Returned(r) => Returned(if r.Some? then r.value.returnMessage else "ERROR")
  }

  /** The TCP server's answer to one received line, with blank lines
      answered ERROR. */
  function TcpReply(line: string, kv: Entries): (r: string)
    ensures Split(line) == [] || !WithinLength(Split(line)) ==> r == "ERROR"
    ensures var t := Split(line); t != [] && t[0] != "PUT" && t[0] != "GET" && t[0] != "DEL" ==> r == "ERROR"
  {
    var tokens := Split(line);
    if !WithinLength(tokens) then "ERROR"
    else match HandleRequest(tokens, kv)
      case Some(r) => r.returnMessage
      case None => "ERROR"
  }

  /** A line made only of spaces splits into no tokens, and the service loop
      of the TCP server dies on it instead of answering. */
  lemma BlankLineThrows(n: nat, kv: Entries)
    requires n > 0
    ensures TcpReplyAsWritten(Spaces(n), kv) == Thrown(ArrayIndexOutOfBounds)
    ensures TcpReply(Spaces(n), kv) == "ERROR"
  {
    SplitOfBlankLine(Spaces(n));
  }

  /** The correction changes nothing else: it differs from the code as
      written exactly on the non-empty lines made only of spaces. */
  lemma TcpReplyCorrection(line: string, kv: Entries)
    ensures TcpReplyAsWritten(line, kv).Thrown? <==> line != [] && forall k :: 0 <= k < |line| ==> line[k] == ' '
    ensures TcpReplyAsWritten(line, kv).Returned? ==> TcpReplyAsWritten(line, kv).value == TcpReply(line, kv)
  {
    if line != [] && forall k :: 0 <= k < |line| ==> line[k] == ' ' {
      SplitOfBlankLine(line);
    }
    if Split(line) == [] {
      BlankWhenNoTokens(line);
    }
  }

  /** A line splits into no tokens only when it is non-empty and blank. */
  lemma BlankWhenNoTokens(line: string)
    requires Split(line) == []
    ensures line != [] && forall k :: 0 <= k < |line| ==> line[k] == ' '
  {
    var p := Pieces(line);
    assert ' ' in line;
    assert forall k :: 0 <= k < |p| ==> p[k] == "";
    JoinPieces(line);
    JoinOfEmpties(p);
  }

  /** Joining empty tokens leaves only the separating spaces. */
  lemma {:induction false} JoinOfEmpties(ts: seq<string>)
    requires forall k :: 0 <= k < |ts| ==> ts[k] == ""
    ensures forall k :: 0 <= k < |Join(ts)| ==> Join(ts)[k] == ' '
    decreases |ts|
  {
    if |ts| >= 2 {
      JoinOfEmpties(ts[1..]);
      assert Join(ts) == "" + " " + Join(ts[1..]);
    }
  }

  /** A GET of a key the map does not hold answers with the text [NULL]. */
  lemma GetOfMissingKey(key: string, kv: Entries)
    requires Lookup(kv, Some(key)) == None
    ensures HandleGetRequest(["GET", key], kv) ==
      Some(RequestResult("Returned value=[NULL] for key=" + key, "GET KEY: " + key + " VAL: [NULL]"))
  {
    assert "Returned value=" + "[NULL]" + " for key=" == "Returned value=[NULL] for key=";
    assert "GET KEY: " + key + " VAL: " + "[NULL]" == "GET KEY: " + key + " VAL: [NULL]";
  }

  /** Round trip for PUT: every PUT line the server handles is acknowledged
      with a reply that passes the client's PUT check for the same key and
      value. */
  lemma PutAcknowledged(line: string, kv: Entries)
    requires var t := Split(line); |t| == 3 && t[0] == "PUT" && WithinLength(t)
    ensures ValidatePutResponse(Split(line)[1], Split(line)[2], TcpReply(line, kv))
  {
    var t := Split(line);
    assert ' ' in line;
    assert TcpReply(line, kv) == "PUT " + t[1] + " " + t[2] + Spaces(0);
    PutResponseMeaning(t[1], t[2], TcpReply(line, kv));
  }

  /** Round trip for GET: a GET line the server handles is acknowledged with
      a reply that passes the client's GET check, provided the stored value
      is a protocol token (as every value a PUT stores is). */
  lemma GetAcknowledged(line: string, kv: Entries)
    requires var t := Split(line); |t| == 2 && t[0] == "GET" && WithinLength(t)
    requires var v := Lookup(kv, Some(Split(line)[1])); v.Some? ==> v.value != "" && ' ' !in v.value
    ensures ValidateGetResponse(Split(line)[1], TcpReply(line, kv))
  {
    var t := Split(line);
    GetLineReply(line, kv);
    var x := ValueText(Lookup(kv, Some(t[1])));
    assert TcpReply(line, kv) == "GET KEY: " + t[1] + " VAL: " + x + Spaces(0);
    GetResponseMeaning(t[1], TcpReply(line, kv));
  }

  /** The reply to a handled GET line. */
  lemma GetLineReply(line: string, kv: Entries)
    requires var t := Split(line); |t| == 2 && t[0] == "GET" && WithinLength(t)
    ensures TcpReply(line, kv) == "GET KEY: " + Split(line)[1] + " VAL: " + ValueText(Lookup(kv, Some(Split(line)[1])))
  {
    var t := Split(line);
    assert HandleRequest(t, kv) == HandleGetRequest(t, kv);
  }

  /** Round trip for DEL: every DEL line the server handles is acknowledged
      with a reply that passes the client's DEL check for the same key. */
  lemma DelAcknowledged(line: string, kv: Entries)
    requires var t := Split(line); |t| == 2 && t[0] == "DEL" && WithinLength(t)
    ensures ValidateDelResponse(Split(line)[1], TcpReply(line, kv))
  {
    var t := Split(line);
    assert ' ' in line;
    assert TcpReply(line, kv) == "DEL " + t[1] + Spaces(0);
    DelResponseMeaning(t[1], TcpReply(line, kv));
  }

  /** End to end for PUT: the line a client sends for a key and a
      non-empty value that pass its own checks (and, coming from a line of
      input, hold no line terminator) is acknowledged with a reply that
      passes its PUT check. */
  lemma ClientPutRoundTrip(key: string, value: string, kv: Entries)
    requires !Clients.IsInvalid(Some(key)) && Clients.NoLineTerminator(key)
    requires !Clients.IsInvalid(Some(value)) && Clients.NoLineTerminator(value) && value != ""
    ensures ValidatePutResponse(key, value, TcpReply("PUT " + key + " " + value, kv))
  {
    ClientTokenIsProtocolToken(key);
    ClientTokenIsProtocolToken(value);
    var line := "PUT " + key + " " + value;
    assert line == "PUT " + key + " " + value + Spaces(0);
    PutResponseMeaning(key, value, line);
    PutAcknowledged(line, kv);
  }

  /** End to end for GET, for a non-empty key: the reply passes the
      client's GET check whenever the stored value is a protocol token. */
  lemma ClientGetRoundTrip(key: string, kv: Entries)
    requires !Clients.IsInvalid(Some(key)) && Clients.NoLineTerminator(key) && key != ""
    requires var v := Lookup(kv, Some(key)); v.Some? ==> v.value != "" && ' ' !in v.value
    ensures ValidateGetResponse(key, TcpReply("GET " + key, kv))
  {
    ClientTokenIsProtocolToken(key);
    var line := "GET " + key;
    var ts := ["GET", key];
    assert Join(ts) == line by {
      assert ts[1..] == [key];
    }
    assert line == Join(ts) + Spaces(0);
    SplitCharacterisation(line, ts);
    GetAcknowledged(line, kv);
  }

  /** What TCPClient.get returns: the fifth token of the reply to the GET
      line the client builds is the value stored under the key, or the
      text [NULL] when there is none. */
  lemma ClientGetReturnsStoredValue(key: string, kv: Entries)
    requires !Clients.IsInvalid(Some(key)) && Clients.NoLineTerminator(key) && key != ""
    requires var v := Lookup(kv, Some(key)); v.Some? ==> v.value != "" && ' ' !in v.value
    ensures var v := Lookup(kv, Some(key));
      |Split(TcpReply("GET " + key, kv))| == 5 &&
      Split(TcpReply("GET " + key, kv))[4] == if v.None? then "[NULL]" else v.value
  {
    var line := "GET " + key;
    GetLineTokens(key);
    GetLineReply(line, kv);
    var x := ValueText(Lookup(kv, Some(key)));
    var rs := ["GET", "KEY:", key, "VAL:", x];
    JoinGet(key, x);
    assert TcpReply(line, kv) == Join(rs) + Spaces(0);
    SplitCharacterisation(TcpReply(line, kv), rs);
  }

  /** The GET line a client builds for a valid non-empty key splits into
      the instruction and the key, both within the length bound. */
  lemma GetLineTokens(key: string)
    requires !Clients.IsInvalid(Some(key)) && Clients.NoLineTerminator(key) && key != ""
    ensures Split("GET " + key) == ["GET", key] && WithinLength(["GET", key])
    ensures ' ' !in key
  {
    ClientTokenIsProtocolToken(key);
    var ts := ["GET", key];
    assert Join(ts) == "GET " + key by {
      assert ts[1..] == [key];
    }
    assert "GET " + key == Join(ts) + Spaces(0);
    SplitCharacterisation("GET " + key, ts);
    assert Utf16Length("GET") <= 2 * |"GET"|;
  }

  /** End to end for DEL, for a non-empty key. */
  lemma ClientDelRoundTrip(key: string, kv: Entries)
    requires !Clients.IsInvalid(Some(key)) && Clients.NoLineTerminator(key) && key != ""
    ensures ValidateDelResponse(key, TcpReply("DEL " + key, kv))
  {
    ClientTokenIsProtocolToken(key);
    var line := "DEL " + key;
    assert line == "DEL " + key + Spaces(0);
    DelResponseMeaning(key, line);
    DelAcknowledged(line, kv);
  }

  /** The client lets an empty key through, but the line it then sends for
      GET or DEL has a single token, and the server answers ERROR. */
  lemma EmptyKeyRefused(kv: Entries)
    ensures !Clients.IsInvalid(Some(""))
    ensures TcpReply("GET ", kv) == "ERROR" && TcpReply("DEL ", kv) == "ERROR"
  {
    assert Utf16Length("") == 0;
    SingleTokenLine("GET");
    assert "GET" + " " == "GET ";
    assert WithinLength(["GET"]) by {
      assert Utf16Length("GET") <= 2 * |"GET"|;
    }
    assert HandleRequest(["GET"], kv) == None;
    SingleTokenLine("DEL");
    assert "DEL" + " " == "DEL ";
    assert WithinLength(["DEL"]) by {
      assert Utf16Length("DEL") <= 2 * |"DEL"|;
    }
    assert HandleRequest(["DEL"], kv) == None;
  }

  /** The client lets an empty value through as well, but the PUT line it
      then sends has only two tokens, and the server answers ERROR. */
  lemma EmptyValueRefused(key: string, kv: Entries)
    requires !Clients.IsInvalid(Some(key)) && Clients.NoLineTerminator(key)
    ensures !Clients.IsInvalid(Some(""))
    ensures TcpReply("PUT " + key + " " + "", kv) == "ERROR"
  {
    ClientTokenIsProtocolToken(key);
    EmptyValueLineTokens(key);
    ShortPutLineRefused("PUT " + key + " " + "", kv);
  }

  /** A PUT line with fewer than three tokens is answered ERROR. */
  lemma ShortPutLineRefused(line: string, kv: Entries)
    requires var t := Split(line); 0 < |t| < 3 && t[0] == "PUT"
    ensures TcpReply(line, kv) == "ERROR"
  {
    var t := Split(line);
    assert HandleRequest(t, kv) == HandlePutRequest(t);
  }

  /** The PUT line for a space-free key and the empty value: the two
      trailing empty tokens, or the one, are dropped. */
  lemma EmptyValueLineTokens(key: string)
    requires ' ' !in key
    ensures Split("PUT " + key + " " + "") == if key == "" then ["PUT"] else ["PUT", key]
  {
    var line := "PUT " + key + " " + "";
    assert line[3] == ' ';
    if key == "" {
      var ts := ["PUT", "", ""];
      assert ts[1..] == ["", ""] && ts[2..] == [""];
      JoinPair("", "");
      assert Join(ts) == "PUT" + " " + ("" + " " + "");
      assert Join(ts) == line;
      PiecesJoin(ts);
      assert ts == ["PUT"] + Empties(2);
      DropEmptiesAfter(["PUT"], 2);
    } else {
      var ts := ["PUT", key, ""];
      assert ts[1..] == [key, ""] && ts[2..] == [""];
      JoinPair(key, "");
      assert Join(ts) == "PUT" + " " + (key + " " + "");
      assert Join(ts) == line;
      PiecesJoin(ts);
      assert ts == ["PUT", key] + Empties(1);
      DropEmptiesAfter(["PUT", key], 1);
    }
  }

  /** A space-free instruction followed by one space splits into the
      instruction alone. */
  lemma SingleTokenLine(instruction: string)
    requires ' ' !in instruction && instruction != ""
    ensures Split(instruction + " ") == [instruction]
  {
    var ts := [instruction, ""];
    assert ts[1..] == [""];
    assert Join(ts) == instruction + " " + "";
    assert instruction + " " + "" == instruction + " ";
    PiecesJoin(ts);
    assert (instruction + " ")[|instruction|] == ' ';
    assert ts[..1] == [instruction];
  }

  /** A token that passes the client's checks is a protocol token: at most
      25 characters and free of spaces. */
  lemma ClientTokenIsProtocolToken(s: string)
    requires !Clients.IsInvalid(Some(s)) && Clients.NoLineTerminator(s)
    ensures Utf16Length(s) <= MAX_INPUT_LENGTH && ' ' !in s
  {
    Clients.ValidTokenBounds(s);
  }
}
