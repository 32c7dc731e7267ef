/**
 * The wazuh-db client: splitting a response into its result code and its
 * payload, the guards of `query` and the attempt loop of `tryQuery`. The
 * socket exchange (connecting, sending, receiving) is an oracle: the reply
 * the database gives to each attempt.
 */
module WazuhDb {
  import opened Wrappers

  /** `std::string::find(" ")`: the position of the first space. */
  function FirstSpace(s: string): (r: Option<nat>)
    ensures r.Some? ==> r.value < |s| && s[r.value] == ' '
    ensures r.Some? ==> forall k :: 0 <= k < r.value ==> s[k] != ' '
    ensures r.None? <==> forall k :: 0 <= k < |s| ==> s[k] != ' '
  {
    if s == [] then None
    else if s[0] == ' ' then Some(0)
    else match FirstSpace(s[1..])
      case None => None
      case Some(i) => Some(i + 1)
  }

  predicate NoSpace(s: string)
  {
    forall k :: 0 <= k < |s| ==> s[k] != ' '
  }

  /** A response, `<code>` or `<code> <payload>`, split at its first space:
      the code has no space, the payload is absent exactly when the response
      has none, and joining the two gives the response back. */
  function Split(result: string): (r: (string, Option<string>))
    ensures NoSpace(r.0) && (r.1.None? <==> NoSpace(result))
    ensures Join(r.0, r.1) == result
  {
    match FirstSpace(result)
    case None => (result, None)
    case Some(i) =>
      assert result == result[..i] + [' '] + result[i + 1..];
      (result[..i], Some(result[i + 1..]))
  }

  /** The response a code and a payload make. */
  function Join(code: string, payload: Option<string>): string
  {
    match payload
    case None => code
    case Some(p) => code + " " + p
  }

  /** Splitting a joined response gives back its code and its payload,
      which may be empty or hold further spaces. */
  lemma SplitJoin(code: string, payload: Option<string>)
    requires NoSpace(code)
    ensures Split(Join(code, payload)) == (code, payload)
  {
    if payload.Some? {
      var s := Join(code, payload);
      assert s[|code|] == ' ';
      assert FirstSpace(s) == Some(|code|) by {
        forall k | 0 <= k < |code| ensures s[k] != ' ' {
          assert s[k] == code[k];
        }
      }
      assert s[..|code|] == code;
      assert s[|code| + 1..] == payload.value;
    }
  }

  /** `parseResult`, which never fails: the response is read as a
      space-free code, then optionally a space and the payload; the code is
      looked up in `QueryResStr2Code` and is `unknown` when the table does
      not hold it. */
  function ParseResult<C>(table: map<string, C>, unknown: C, result: string): (r: (C, Option<string>))
    ensures exists code ::
      && NoSpace(code) && Join(code, r.1) == result
      && r.0 == (if code in table then table[code] else unknown)
  {
    var (code, payload) := Split(result);
    assert NoSpace(code) && Join(code, payload) == result;
    (if code in table then table[code] else unknown, payload)
  }

  /** A response `code` or `code payload` parses to the code's entry in the
      table, or to `unknown` when it has none, and to the payload, absent
      when there is no space. */
  lemma ParsesJoined<C>(table: map<string, C>, unknown: C, code: string, payload: Option<string>)
    requires NoSpace(code)
    ensures ParseResult(table, unknown, Join(code, payload)).0 == (if code in table then table[code] else unknown)
    ensures ParseResult(table, unknown, Join(code, payload)).1 == payload
  {
    SplitJoin(code, payload);
  }

  /** What the socket does with one query that reaches it: an answer, a
      recoverable error (`RecoverableError`) or any other failure. */
  datatype Reply = Answer(text: string) | Recoverable(what: string) | Irrecoverable(what: string)

  /** The number of bytes of the UTF-8 encoding of `c`. */
  function Utf8Width(c: char): (r: nat)
    ensures 1 <= r <= 4 && (r == 1 <==> c as int < 0x80)
  {
    if c as int < 0x80 then 1
    else if c as int < 0x800 then 2
    else if c as int < 0x1_0000 then 3
    else 4
  }

  /** `std::string::length()` of a query: the number of bytes of its UTF-8
      encoding, between one and four per character. */
  function Utf8Length(s: string): (r: nat)
    ensures |s| <= r <= 4 * |s|
    ensures r == |s| <==> forall k :: 0 <= k < |s| ==> s[k] as int < 0x80
  {
    if s == [] then 0 else Utf8Length(s[..|s| - 1]) + Utf8Width(s[|s| - 1])
  }

  /** `query` answers `""` without touching the socket when the query is
      empty or longer, in bytes, than the socket's message limit. A query
      that gets through has at most `maxSize` characters, and on ASCII text
      characters and bytes agree. */
  predicate Rejected(maxSize: nat, query: string): (r: bool)
    ensures !r ==> 0 < |query| <= maxSize
    ensures (forall k :: 0 <= k < |query| ==> query[k] as int < 0x80) ==> (r <==> |query| == 0 || |query| > maxSize)
  {
    |query| == 0 || Utf8Length(query) > maxSize
  }

  /** Characters are not bytes: with a limit of 4 bytes, the query of
      three e-acute characters, six bytes in UTF-8, is rejected. */
  lemma RejectedByBytes()
    ensures |"\U{E9}\U{E9}\U{E9}"| == 3 && Utf8Length("\U{E9}\U{E9}\U{E9}") == 6
    ensures Rejected(4, "\U{E9}\U{E9}\U{E9}")
  {
    var s := "\U{E9}\U{E9}\U{E9}";
    assert s[..2][..1] == s[..1] && s[..2] == s[..3][..2] && s == s[..3];
    assert Utf8Width(s[0]) == 2;
  }

  /** The outcome of an attempt loop: its result and how many queries
      reached the socket. */
  datatype Tries = Tries(result: string, exchanges: nat)

  /** The attempt loop of `tryQuery` from attempt `i`, where `replies(j)`
      is the socket's reply to attempt `j`. It stops at the first answer,
      at the first irrecoverable failure, and when the query is rejected;
      the result is `""` unless an answer came. */
  function Tried(maxSize: nat, query: string, replies: nat -> Reply, attempts: nat, i: nat): (r: Tries)
    ensures i <= attempts ==> r.exchanges <= attempts - i
    ensures i >= attempts || Rejected(maxSize, query) ==> r == Tries("", 0)
    ensures r.result != "" ==> exists j :: i <= j < attempts && replies(j) == Answer(r.result)
    decreases attempts - i
  {
    if i >= attempts || Rejected(maxSize, query) then Tries("", 0)
    else match replies(i)
      case Answer(text) => Tries(text, 1)
      case Irrecoverable(_) => Tries("", 1)
      case Recoverable(_) =>
        var t := Tried(maxSize, query, replies, attempts, i + 1);
        Tries(t.result, t.exchanges + 1)
  }

  /** The loop makes one exchange per recoverable failure and stops at the
      first reply that is not one: every attempt before it failed
      recoverably. */
  lemma {:induction false} TriedStops(maxSize: nat, query: string, replies: nat -> Reply, attempts: nat, i: nat, j: nat)
    requires !Rejected(maxSize, query) && i <= j < attempts
    requires forall k :: i <= k < j ==> replies(k).Recoverable?
    requires !replies(j).Recoverable?
    ensures Tried(maxSize, query, replies, attempts, i)
         == Tries(if replies(j).Answer? then replies(j).text else "", j - i + 1)
    decreases j - i
  {
    if i < j {
      TriedStops(maxSize, query, replies, attempts, i + 1, j);
    }
  }

  /** When every attempt fails recoverably, all of them reach the socket
      and the result is `""`. */
  lemma {:induction false} TriedExhausted(maxSize: nat, query: string, replies: nat -> Reply, attempts: nat, i: nat)
    requires !Rejected(maxSize, query) && i <= attempts
    requires forall k :: i <= k < attempts ==> replies(k).Recoverable?
    ensures Tried(maxSize, query, replies, attempts, i) == Tries("", attempts - i)
    decreases attempts - i
  {
    if i < attempts {
      TriedExhausted(maxSize, query, replies, attempts, i + 1);
    }
  }

  /** `WazuhDB`: the client of one database socket. */
  class WazuhDB {
    /** `socketinterface::MSG_MAX_SIZE`. */
    const maxSize: nat
    /** The queries that passed the length guards so far, in order, each
        one attempt to connect, send and receive (which may have failed). */
    var attempted: seq<string>

    constructor (maxSize: nat)
      ensures this.maxSize == maxSize && attempted == []
    {
      this.maxSize := maxSize;
      attempted := [];
    }

    /** `query`: a rejected query answers `""` and sends nothing; any other
        query is attempted and the socket's reply is the outcome. */
    method Query(query: string, reply: Reply) returns (r: Reply)
      modifies this
      ensures Rejected(maxSize, query) ==> r == Answer("") && attempted == old(attempted)
      ensures !Rejected(maxSize, query) ==> r == reply && attempted == old(attempted) + [query]
    {
      if |query| == 0 {
        return Answer("");
      } else if Utf8Length(query) > maxSize {
        return Answer("");
      }
      attempted := attempted + [query];
      r := reply;
    }

    /** `tryQuery`: at most `attempts` queries, stopping at the first
        answer or the first irrecoverable failure. */
    method TryQuery(query: string, attempts: nat, replies: nat -> Reply) returns (result: string)
      modifies this
      ensures var t := Tried(maxSize, query, replies, attempts, 0);
        result == t.result && attempted == old(attempted) + seq(t.exchanges, _ => query)
    {
      result := "";
      var i: nat := 0;
      while i < attempts
        invariant i <= attempts && result == ""
        invariant attempted == old(attempted) + seq(i, _ => query)
        invariant i > 0 ==> !Rejected(maxSize, query)
        invariant var t := Tried(maxSize, query, replies, attempts, i);
          Tried(maxSize, query, replies, attempts, 0) == Tries(t.result, t.exchanges + i)
      {
        var reply := Query(query, replies(i));
        if reply.Answer? {
          result := reply.text;
          break;
        }
        if reply.Irrecoverable? {
          break;
        }
        i := i + 1;
      }
    }

    /** `tryQueryAndParseResult`. */
    method TryQueryAndParse<C>(table: map<string, C>, unknown: C, query: string, attempts: nat, replies: nat -> Reply)
      returns (r: (C, Option<string>))
      modifies this
      ensures r == ParseResult(table, unknown, Tried(maxSize, query, replies, attempts, 0).result)
    {
      var result := TryQuery(query, attempts, replies);
      r := ParseResult(table, unknown, result);
    }

    /** `queryAndParseResult`: a failed exchange is reported, an answer is
        parsed. */
    method QueryAndParse<C>(table: map<string, C>, unknown: C, query: string, reply: Reply)
      returns (r: Result<(C, Option<string>), string>)
      modifies this
      ensures Rejected(maxSize, query) ==> r == Success(ParseResult(table, unknown, ""))
      ensures !Rejected(maxSize, query) && reply.Answer? ==> r == Success(ParseResult(table, unknown, reply.text))
      ensures !Rejected(maxSize, query) && !reply.Answer? ==> r == Failure(reply.what)
    {
      var outcome := Query(query, reply);
      if !outcome.Answer? {
        return Failure(outcome.what);
      }
      r := Success(ParseResult(table, unknown, outcome.text));
    }
  }
}
