/** The request-side helpers of the relay service: reading form and query
    fields, naming the client, detecting the operator flag and the gated
    vision endpoint (server.py). A form or query string is a sequence of
    (key, value) pairs in the order the client sent them. */
module Request {
  import opened Wrappers
  import opened Text

  type Fields = seq<(string, string)>

  const OPERATOR := "operator"
  const DENIED := "Access denied. Signal not elevated."

  /** `i` is the position of the last field named `key`. */
  predicate LastIndexOf(fields: Fields, key: string, i: int)
  {
    0 <= i < |fields| && fields[i].0 == key &&
    forall j :: i < j < |fields| ==> fields[j].0 != key
  }

  /** `getlist(key)`: the values of every field named `key`, in order. */
  function GetList(fields: Fields, key: string): (vs: seq<string>)
    ensures |vs| <= |fields|
  {
    if fields == [] then []
    else
      var last := fields[|fields| - 1];
      GetList(fields[..|fields| - 1], key) + (if last.0 == key then [last.1] else [])
  }

  /** `getlist` is empty exactly when no field has the key. */
  lemma {:induction false} GetListEmpty(fields: Fields, key: string)
    ensures GetList(fields, key) == [] <==> forall i :: 0 <= i < |fields| ==> fields[i].0 != key
  {
    if fields != [] {
      var init := fields[..|fields| - 1];
      GetListEmpty(init, key);
      assert forall i :: 0 <= i < |init| ==> init[i] == fields[i];
    }
  }

  /** The last value `getlist` returns is the value of the last field with
      the key. */
  lemma {:induction false} GetListLast(fields: Fields, key: string, i: int)
    requires LastIndexOf(fields, key, i)
    ensures GetList(fields, key) != [] && GetList(fields, key)[|GetList(fields, key)| - 1] == fields[i].1
  {
    var init := fields[..|fields| - 1];
    if i < |init| {
      assert LastIndexOf(init, key, i);
      GetListLast(init, key, i);
    }
  }

  /** `getlist` of two forms one after the other is the first's values
      followed by the second's. */
  lemma {:induction false} GetListConcat(a: Fields, b: Fields, key: string)
    ensures GetList(a + b, key) == GetList(a, key) + GetList(b, key)
    decreases |b|
  {
    if b == [] {
      assert a + b == a;
    } else {
      var init := b[..|b| - 1];
      assert (a + b)[..|a + b| - 1] == a + init;
      GetListConcat(a, init, key);
    }
  }

  /** One field contributes its value exactly when it has the key; with
      `GetListConcat` this determines `getlist` on every form. */
  lemma {:induction false} GetListSingle(field: (string, string), key: string)
    ensures GetList([field], key) == (if field.0 == key then [field.1] else [])
  {
    assert [field][..0] == [];
  }

  /** `extract_last`: the last value of `key`, stripped, or "" when absent. */
  function ExtractLast(fields: Fields, key: string): (r: string)
    ensures (forall i :: 0 <= i < |fields| ==> fields[i].0 != key) ==> r == ""
    ensures forall i :: LastIndexOf(fields, key, i) ==> r == Strip(fields[i].1)
  {
    var vs := GetList(fields, key);
    GetListEmpty(fields, key);
    forall i | LastIndexOf(fields, key, i) ensures vs != [] && vs[|vs| - 1] == fields[i].1 {
      GetListLast(fields, key, i);
    }
    if vs != [] then Strip(vs[|vs| - 1]) else ""
  }

  /** Whenever some field is named `key`, one of them is the last. */
  lemma {:induction false} LastIndexExists(fields: Fields, key: string, i: int)
    requires 0 <= i < |fields| && fields[i].0 == key
    ensures exists l :: LastIndexOf(fields, key, l)
    decreases |fields| - i
  {
    if !LastIndexOf(fields, key, i) {
      var j :| i < j < |fields| && fields[j].0 == key;
      LastIndexExists(fields, key, j);
    }
  }

  /** `client_ip`: the first comma-separated entry of `X-Forwarded-For`
      (the header's value, "" when absent), stripped, when that header is
      non-empty; else the peer address, or "unknown" when there is none. */
  function ClientIp(forwarded: string, remoteAddr: Option<string>): (ip: string)
    ensures forwarded != "" ==>
      exists n :: 0 <= n <= |forwarded| && ',' !in forwarded[..n] &&
        (n == |forwarded| || forwarded[n] == ',') && IsStripOf(ip, forwarded[..n])
    ensures forwarded != "" ==> ',' !in ip
    ensures forwarded == "" && remoteAddr.Some? && remoteAddr.value != "" ==> ip == remoteAddr.value
    ensures forwarded == "" && (remoteAddr.None? || remoteAddr.value == "") ==> ip == "unknown"
  {
    if forwarded != "" then
      var first := FirstField(forwarded, ',');
      var ip := Strip(first);
      assert forwarded[..|first|] == first;
      assert forall c :: c in ip ==> c in first;
      ip
    else if remoteAddr.Some? && remoteAddr.value != "" then remoteAddr.value
    else "unknown"
  }

  /** The header alone decides the client key: any comma-free entry without
      edge whitespace placed first in `X-Forwarded-For` becomes the key,
      whatever follows it and whatever the peer address is. */
  lemma {:induction false} ClientIpFromFirstEntry(entry: string, rest: string, remoteAddr: Option<string>)
    requires ',' !in entry && NoEdgeSpace(entry)
    ensures ClientIp(entry + [','] + rest, remoteAddr) == entry
  {
    FirstFieldOfJoin(entry, ',', rest);
    StripNoEdgeSpace(entry);
  }

  lemma {:induction false} ClientIpFromSingleEntry(entry: string, remoteAddr: Option<string>)
    requires entry != "" && ',' !in entry && NoEdgeSpace(entry)
    ensures ClientIp(entry, remoteAddr) == entry
  {
    FirstFieldWhole(entry, ',');
    StripNoEdgeSpace(entry);
  }

  /** A non-empty `extract_last` comes from the last field with the key. */
  lemma {:induction false} ExtractLastFound(fields: Fields, key: string)
    requires ExtractLast(fields, key) != ""
    ensures exists i :: LastIndexOf(fields, key, i) && ExtractLast(fields, key) == Strip(fields[i].1)
  {
    var i :| 0 <= i < |fields| && fields[i].0 == key;
    LastIndexExists(fields, key, i);
  }

  /** `detect_operator`: reads the form of a POST and the query string of
      any other request; the flag is set exactly when the last `user` field,
      stripped, is "operator". */
  function DetectOperator(isPost: bool, form: Fields, args: Fields): (isOperator: bool)
    ensures var source := if isPost then form else args;
      isOperator <==> exists i :: LastIndexOf(source, "user", i) && Strip(source[i].1) == OPERATOR
  {
    var source := if isPost then form else args;
    var r := ExtractLast(source, "user") == OPERATOR;
    if r then ExtractLastFound(source, "user"); r else r
  }

  /** The client's last word wins: appending `user=operator` (with any edge
      whitespace) to a form or query yields the operator flag, whatever
      `user` fields came before it. */
  lemma {:induction false} LastUserFieldWins(form: Fields, args: Fields, pad: string)
    requires forall k :: 0 <= k < |pad| ==> IsSpace(pad[k])
    ensures DetectOperator(true, form + [("user", pad + OPERATOR + pad)], args)
    ensures DetectOperator(false, form, args + [("user", pad + OPERATOR + pad)])
  {
    var v := pad + OPERATOR + pad;
    assert NoEdgeSpace(OPERATOR) by {
      assert OPERATOR[0] == 'o' && OPERATOR[|OPERATOR| - 1] == 'r';
    }
    StripPadded(pad, OPERATOR, pad);
    assert LastIndexOf(form + [("user", v)], "user", |form|);
    assert LastIndexOf(args + [("user", v)], "user", |args|);
  }

  /** A form or query without a `user` field never carries the flag. */
  lemma {:induction false} NoUserFieldNoFlag(isPost: bool, form: Fields, args: Fields)
    requires var source := if isPost then form else args;
      forall i :: 0 <= i < |source| ==> source[i].0 != "user"
    ensures !DetectOperator(isPost, form, args)
  {
  }

  /** The response of `GET /visions/eleven-only`. */
  datatype VisionResponse = Denied(error: string) | Vision(vision: string)
  {
    function Code(): int { if Denied? then 403 else 200 }
  }

  /** `visions` after `detect_operator` on a GET request: the secret is
      returned with 200 exactly when the query's last `user` field is
      "operator"; every other request gets 403 and the denial message. */
  function Visions(args: Fields, flag: string): (resp: VisionResponse)
    ensures resp.Code() == 200 <==> ExtractLast(args, "user") == OPERATOR
    ensures resp.Code() == 200 ==> resp == Vision(flag)
    ensures resp.Code() != 200 ==> resp == Denied(DENIED) && resp.Code() == 403
  {
    if !DetectOperator(false, [], args) then Denied(DENIED) else Vision(flag)
  }
}
