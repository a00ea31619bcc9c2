/** The client's checks on a server acknowledgement: each holds when the
    reply, split at single spaces, has the shape the server gives to a
    successful PUT, GET or DEL of the client's key. */
module ResponseValidators {
  import opened JavaLang

  /** ValidatePutResponse(key, value).test(s). */
  predicate ValidatePutResponse(key: string, value: string, s: string)
    ensures ValidatePutResponse(key, value, s) ==> ' ' !in key && ' ' !in value && value != ""
  {
    var t := Split(s);
    |t| == 3 && t[0] == "PUT" && t[1] == key && t[2] == value
  }

  /** ValidateGetResponse(key).test(s): the fifth token, the value, is not
      checked. */
  predicate ValidateGetResponse(key: string, s: string)
    ensures ValidateGetResponse(key, s) ==> ' ' !in key
  {
    var t := Split(s);
    |t| == 5 && t[0] == "GET" && t[1] == "KEY:" && t[2] == key && t[3] == "VAL:"
  }

  /** ValidateDelResponse(key).test(s). */
  predicate ValidateDelResponse(key: string, s: string)
    ensures ValidateDelResponse(key, s) ==> key != "" && ' ' !in key
  {
    var t := Split(s);
    |t| == 2 && t[0] == "DEL" && t[1] == key
  }

  /** The PUT check accepts exactly "PUT <key> <value>" followed by any run
      of spaces, and only for a space-free key and a non-empty space-free
      value; for any other key or value no reply passes. */
  lemma PutResponseMeaning(key: string, value: string, s: string)
    ensures ValidatePutResponse(key, value, s) <==>
      ' ' !in key && ' ' !in value && value != "" && exists m: nat :: s == "PUT " + key + " " + value + Spaces(m)
  {
    var ts := ["PUT", key, value];
    assert Join(ts) == "PUT " + key + " " + value by {
      JoinPair(key, value);
      assert ts[1..] == [key, value];
      assert Join(ts) == "PUT" + " " + (key + " " + value);
      assert "PUT" + " " == "PUT ";
    }
    if ValidatePutResponse(key, value, s) {
      assert Split(s) == ts;
      assert ' ' in s;
      SplitCharacterisation(s, ts);
      var m: nat :| s == Join(ts) + Spaces(m);
      assert s == "PUT " + key + " " + value + Spaces(m);
    }
    if ' ' !in key && ' ' !in value && value != "" && exists m: nat :: s == "PUT " + key + " " + value + Spaces(m) {
      var m: nat :| s == "PUT " + key + " " + value + Spaces(m);
      assert s == Join(ts) + Spaces(m);
      SplitCharacterisation(s, ts);
    }
  }

  /** The GET check accepts exactly "GET KEY: <key> VAL: <x>" followed by any
      run of spaces, for a space-free key and any non-empty space-free x. */
  lemma GetResponseMeaning(key: string, s: string)
    ensures ValidateGetResponse(key, s) <==>
      ' ' !in key && exists x: string, m: nat :: x != "" && ' ' !in x && s == "GET KEY: " + key + " VAL: " + x + Spaces(m)
  {
    if ValidateGetResponse(key, s) {
      var x := Split(s)[4];
      var ts := ["GET", "KEY:", key, "VAL:", x];
      assert Split(s) == ts;
      assert ' ' in s;
      SplitCharacterisation(s, ts);
      JoinGet(key, x);
      var m: nat :| s == Join(ts) + Spaces(m);
      assert x != "" && ' ' !in x && s == "GET KEY: " + key + " VAL: " + x + Spaces(m);
    }
    if ' ' !in key && exists x: string, m: nat :: x != "" && ' ' !in x && s == "GET KEY: " + key + " VAL: " + x + Spaces(m) {
      var x: string, m: nat :| x != "" && ' ' !in x && s == "GET KEY: " + key + " VAL: " + x + Spaces(m);
      var ts := ["GET", "KEY:", key, "VAL:", x];
      JoinGet(key, x);
      assert s == Join(ts) + Spaces(m);
      SplitCharacterisation(s, ts);
    }
  }

  lemma JoinGet(key: string, x: string)
    ensures Join(["GET", "KEY:", key, "VAL:", x]) == "GET KEY: " + key + " VAL: " + x
  {
    var ts := ["GET", "KEY:", key, "VAL:", x];
    JoinPair("VAL:", x);
    assert ["VAL:", x][1..] == [x];
    var t3 := [key, "VAL:", x];
    assert t3[1..] == ["VAL:", x];
    assert Join(t3) == key + " " + ("VAL:" + " " + x);
    var t4 := ["KEY:", key, "VAL:", x];
    assert t4[1..] == t3;
    assert Join(t4) == "KEY:" + " " + (key + " " + ("VAL:" + " " + x));
    assert ts[1..] == t4;
    assert Join(ts) == "GET" + " " + ("KEY:" + " " + (key + " " + ("VAL:" + " " + x)));
    assert "GET" + " " + "KEY:" + " " == "GET KEY: ";
    assert " " + "VAL:" + " " == " VAL: ";
  }

  lemma JoinPair(a: string, b: string)
    ensures Join([a, b]) == a + " " + b
  {
    assert [a, b][1..] == [b];
  }

  /** The DEL check accepts exactly "DEL <key>" followed by any run of
      spaces, and only for a non-empty space-free key. */
  lemma DelResponseMeaning(key: string, s: string)
    ensures ValidateDelResponse(key, s) <==>
      key != "" && ' ' !in key && exists m: nat :: s == "DEL " + key + Spaces(m)
  {
    var ts := ["DEL", key];
    assert Join(ts) == "DEL " + key by {
      assert ts[1..] == [key];
    }
    if ValidateDelResponse(key, s) {
      assert Split(s) == ts;
      assert ' ' in s;
      SplitCharacterisation(s, ts);
      var m: nat :| s == Join(ts) + Spaces(m);
      assert s == "DEL " + key + Spaces(m);
    }
    if key != "" && ' ' !in key && exists m: nat :: s == "DEL " + key + Spaces(m) {
      var m: nat :| s == "DEL " + key + Spaces(m);
      assert s == Join(ts) + Spaces(m);
      SplitCharacterisation(s, ts);
    }
  }
}
