/** The reply address that ties an incoming mail to its ticket
    (src/modules/sendgrid/services.py, src/modules/ticket/services/conversation.py). */
module ReplyAddress {
  import opened Wrappers
  import opened Text

  /** Fernet: encryption draws a nonce; decryption may reject. */
  datatype Cipher = Cipher(encrypt: (string, int) -> string, decrypt: string -> Option<string>)

  /** What is asked of the cipher: it inverts, and its tokens hold neither separator. */
  ghost predicate Suitable(c: Cipher) {
    forall data: string, nonce: int ::
      && c.decrypt(c.encrypt(data, nonce)) == Some(data)
      && '<' !in c.encrypt(data, nonce) && '@' !in c.encrypt(data, nonce)
  }

  // A suitable cipher, were secrecy no concern: the separators are written as escapes.
  function Escape(s: string): string {
    if s == "" then ""
    else
      (match s[0]
       case '<' => "~l"
       case '@' => "~a"
       case '~' => "~t"
       case c => [c])
      + Escape(s[1..])
  }

  function Unescape(t: string): string
    decreases |t|
  {
    if t == "" then ""
    else if t[0] == '~' && |t| > 1 then
      [if t[1] == 'l' then '<' else if t[1] == 'a' then '@' else '~'] + Unescape(t[2..])
    else [t[0]] + Unescape(t[1..])
  }

  function Escaping(): Cipher {
    Cipher((data: string, nonce: int) => Escape(data), (token: string) => Some(Unescape(token)))
  }

  lemma {:induction false} UnescapeInvertsEscape(s: string)
    ensures Unescape(Escape(s)) == s
    ensures '<' !in Escape(s) && '@' !in Escape(s)
  {
    if s == "" {
    } else {
      UnescapeInvertsEscape(s[1..]);
      var t, rest := Escape(s), Escape(s[1..]);
      if s[0] in {'<', '@', '~'} {
        assert t[2..] == rest;
      } else {
        assert t[1..] == rest;
      }
    }
  }

  /** What is asked of the cipher can be had. */
  lemma SuitableCipherExists()
    ensures Suitable(Escaping())
  {
    forall data: string, nonce: int
      ensures Escaping().encrypt(data, nonce) == Escape(data)
      ensures Unescape(Escape(data)) == data && '<' !in Escape(data) && '@' !in Escape(data)
    {
      UnescapeInvertsEscape(data);
    }
  }

  const TAG := "tickets_"

  function EncodeTicket(c: Cipher, org: int, ticket: int, nonce: int): string {
    TAG + c.encrypt(Decimal(org) + ":" + Decimal(ticket), nonce)
  }

  datatype AddressError = NoAngleAddress | BadPrefix | BadToken | NotTwoParts | NotANumber

  function DecodeTicket(c: Cipher, encoded: string): Result<(int, int), AddressError> {
    if !(TAG <= encoded) then Failure(BadPrefix)
    else match c.decrypt(encoded[|TAG|..])
      case None => Failure(BadToken)
      case Some(data) =>
        var parts := Split(data, ':');
        if |parts| != 2 then Failure(NotTwoParts)
        else match (ParseInt(parts[0]), ParseInt(parts[1]))
          case (Some(org), Some(ticket)) => Success((org, ticket))
          case _ => Failure(NotANumber)
  }

  /** The Reply-To header: a display name and an angle address (RFC 5322, section 3.4). */
  function ReplyTo(name: string, local: string, domain: string): string {
    name + " <" + local + "@reply." + domain + ">"
  }

  /** `to_email.split("<")[1].split("@")[0]`, then decoding. */
  function TicketOf(c: Cipher, to: string): Result<(int, int), AddressError> {
    var parts := Split(to, '<');
    if |parts| < 2 then Failure(NoAngleAddress) else DecodeTicket(c, Split(parts[1], '@')[0])
  }

  /** The address's form: a fixed tag, and the token of both ids with a colon between. */
  lemma AddressText(c: Cipher, org: int, ticket: int, nonce: int)
    ensures EncodeTicket(c, org, ticket, nonce) ==
            "tickets_" + c.encrypt(Decimal(org) + ":" + Decimal(ticket), nonce)
    ensures ReplyTo("Ann", "tickets_x", "desk.org") == "Ann <tickets_x@reply.desk.org>"
  {
  }

  /** Decoding succeeds exactly on the tag followed by a token of two numbers with one colon
      between, and otherwise names the first test that failed. */
  lemma DecodingTestsInOrder(c: Cipher, encoded: string)
    ensures var r := DecodeTicket(c, encoded);
            if |encoded| < 8 || encoded[..8] != "tickets_" then r == Failure(BadPrefix)
            else match c.decrypt(encoded[8..])
              case None => r == Failure(BadToken)
              case Some(data) =>
                && (r == Failure(NotTwoParts) <==>
                      !exists a, b :: ':' !in a && ':' !in b && data == a + ":" + b)
                && (forall a, b | ':' !in a && ':' !in b && data == a + ":" + b ::
                      r == if ParseInt(a).Some? && ParseInt(b).Some?
                           then Success((ParseInt(a).value, ParseInt(b).value)) else Failure(NotANumber))
  {
    assert TAG <= encoded <==> |encoded| >= 8 && encoded[..8] == "tickets_";
    if TAG <= encoded && c.decrypt(encoded[8..]).Some? {
      var data := c.decrypt(encoded[8..]).value;
      SplitInTwo(data, ':');
      forall a, b | ':' !in a && ':' !in b && data == a + ":" + b
        ensures Split(data, ':') == [a, b]
      {
        SplitAtFirst(a, ':', b);
        SplitWithout(b, ':');
        assert a + [':'] + b == data;
      }
      if |Split(data, ':')| == 2 {
        var a, b := Split(data, ':')[0], Split(data, ':')[1];
        assert ':' !in a && ':' !in b && data == a + ":" + b;
      }
    }
  }

  /** What is decoded is the text after the first `<`, up to the next `@` or `<`. */
  lemma TicketOfReads(c: Cipher, to: string, name: string, local: string, rest: string)
    ensures '<' !in to ==> TicketOf(c, to) == Failure(NoAngleAddress)
    ensures '<' !in name && '<' !in local && '@' !in local && (rest == "" || rest[0] == '@' || rest[0] == '<') ==>
              TicketOf(c, name + "<" + local + rest) == DecodeTicket(c, local)
  {
    hide Split, DecodeTicket;
    if '<' !in to {
      SplitWithout(to, '<');
    }
    if '<' !in name && '<' !in local && '@' !in local && (rest == "" || rest[0] == '@' || rest[0] == '<') {
      var tail := local + rest;
      assert name + "<" + local + rest == name + ['<'] + tail;
      SplitAtFirst(name, '<', tail);
      if rest == "" {
        assert tail == local;
        SplitWithout(local, '<');
        SplitWithout(local, '@');
      } else if rest[0] == '<' {
        assert tail == local + ['<'] + rest[1..];
        SplitAtFirst(local, '<', rest[1..]);
        SplitWithout(local, '@');
      } else {
        HeadOfSplit(local + "@", rest[1..], '<');
        assert tail == (local + "@") + rest[1..];
        var head := Split(tail, '<')[0];
        assert local + "@" <= head;
        assert head == local + ['@'] + head[|local| + 1..];
        SplitAtFirst(local, '@', head[|local| + 1..]);
      }
    }
  }

  lemma DecodeInvertsEncode(c: Cipher, org: int, ticket: int, nonce: int)
    requires Suitable(c)
    ensures DecodeTicket(c, EncodeTicket(c, org, ticket, nonce)) == Success((org, ticket))
  {
    var a, b := Decimal(org), Decimal(ticket);
    var data := a + ":" + b;
    var encoded := EncodeTicket(c, org, ticket, nonce);
    assert encoded[|TAG|..] == c.encrypt(data, nonce);
    DecimalCharacters(org);
    DecimalCharacters(ticket);
    SplitAtFirst(a, ':', b);
    SplitWithout(b, ':');
    assert a + [':'] + b == data;
    ParseRendered(org);
    ParseRendered(ticket);
  }

  /** A reply sent to the address comes back to the same organization and ticket, whatever
      the ids, the nonce, the domain, and a display name without an angle bracket. */
  lemma ReplyFindsItsTicket(c: Cipher, org: int, ticket: int, nonce: int, name: string, domain: string)
    requires Suitable(c) && '<' !in name
    ensures TicketOf(c, ReplyTo(name, EncodeTicket(c, org, ticket, nonce), domain)) == Success((org, ticket))
  {
    hide Split, DecodeTicket;
    var local := EncodeTicket(c, org, ticket, nonce);
    var tail := local + "@reply." + domain + ">";
    var to := ReplyTo(name, local, domain);
    assert to == (name + " ") + ['<'] + tail;
    SplitAtFirst(name + " ", '<', tail);
    // the local part holds neither separator, so both splits stop right after it
    assert c.decrypt(c.encrypt(Decimal(org) + ":" + Decimal(ticket), nonce)).Some?;
    assert '@' !in local && '<' !in local;
    var rest := Split(tail, '<');
    HeadOfSplit(local + "@reply.", domain + ">", '<');
    assert tail == (local + "@reply.") + (domain + ">");
    assert local + "@reply." <= rest[0];
    var after := rest[0][|local| + 1..];
    assert rest[0] == local + ['@'] + after;
    SplitAtFirst(local, '@', after);
    DecodeInvertsEncode(c, org, ticket, nonce);
  }

  // Text without the separator stays together at the head of a split.
  lemma {:induction false} HeadOfSplit(a: string, b: string, c: char)
    requires c !in a
    ensures a <= Split(a + b, c)[0]
  {
    if a == "" {
    } else {
      assert (a + b)[1..] == a[1..] + b;
      HeadOfSplit(a[1..], b, c);
      assert a == [a[0]] + a[1..];
    }
  }

  /** Two different tickets never share an address. */
  lemma AddressesAreUnambiguous(c: Cipher, org: int, ticket: int, nonce: int, org': int, ticket': int, nonce': int)
    requires Suitable(c)
    requires EncodeTicket(c, org, ticket, nonce) == EncodeTicket(c, org', ticket', nonce')
    ensures org == org' && ticket == ticket'
  {
    DecodeInvertsEncode(c, org, ticket, nonce);
    DecodeInvertsEncode(c, org', ticket', nonce');
  }
}
