/** `BeanValidator`: how the message of a constraint violation becomes the
    text that is logged, and how the violations of a parent and a child
    constructor are merged before they are logged.

    A message template holds placeholders: the key `$` followed by a
    possibly empty run of `[a-zA-Z0-9_-]`. The matcher scans the original
    message left to right; each match starts at a `$` and takes the longest
    run of name characters after it. */
module BeanValidator {

  import opened Wrappers
  import opened JavaLang
  import opened Log4jModel
  import opened StringUtils
  import opened SeqFacts

  /** `REGEX_KEY` */
  const KEY: char := '$'

  /** A character of the class `[a-zA-Z0-9_-]`. */
  predicate IsNameChar(c: char) {
    IsAsciiAlphanumeric(c) || c == '_' || c == '-'
  }

  predicate IsName(s: string) {
    forall i :: 0 <= i < |s| ==> IsNameChar(s[i])
  }

  /** The length of the longest prefix of `s` made of name characters: what
      the greedy `*` of the pattern takes. */
  function NameRun(s: string): (n: nat)
    ensures n <= |s|
    ensures IsName(s[..n])
    ensures n < |s| ==> !IsNameChar(s[n])
    decreases |s|
  {
    if |s| == 0 || !IsNameChar(s[0]) then 0
    else
      var n := 1 + NameRun(s[1..]);
      assert s[..n] == [s[0]] + s[1..][..n - 1];
      n
  }

  /** The run after a name is exactly the name when what follows cannot
      continue it. */
  lemma {:induction false} NameRunOf(name: string, rest: string)
    requires IsName(name)
    requires |rest| > 0 ==> !IsNameChar(rest[0])
    ensures NameRun(name + rest) == |name|
    decreases |name|
  {
    if |name| > 0 {
      assert (name + rest)[1..] == name[1..] + rest;
      NameRunOf(name[1..], rest);
    }
  }

  // ---------------------------------------------------------------------------
  // The message as the matcher reads it

  /** A character outside every match, or one match with its group. */
  datatype Token = Text(c: char) | Placeholder(name: string)

  function TokenText(t: Token): string {
    match t
    case Text(c) => [c]
    case Placeholder(name) => [KEY] + name
  }

  /** The message a token sequence spells. */
  function Unparse(ts: seq<Token>): string
    decreases |ts|
  {
    if |ts| == 0 then "" else TokenText(ts[0]) + Unparse(ts[1..])
  }

  /** A token sequence the matcher could have produced: text is never the
      key, a name is a run of name characters, and a placeholder is not
      followed by a name character that its run would have taken. */
  predicate WellFormed(ts: seq<Token>)
    decreases |ts|
  {
    |ts| == 0 ||
    (&& (ts[0].Text? ==> ts[0].c != KEY)
     && (ts[0].Placeholder? ==> IsName(ts[0].name))
     && (ts[0].Placeholder? && |ts| > 1 && ts[1].Text? ==> !IsNameChar(ts[1].c))
     && WellFormed(ts[1..]))
  }

  /** The successive `matcher.find()` calls over `message`, together with
      the text between the matches. */
  function Tokenize(message: string): seq<Token>
    decreases |message|
  {
    if |message| == 0 then []
    else if message[0] == KEY then
      var n := NameRun(message[1..]);
      [Placeholder(message[1..1 + n])] + Tokenize(message[1 + n..])
    else
      [Text(message[0])] + Tokenize(message[1..])
  }

  /** The first match, when the message starts with the key: its group is
      the run of name characters after the key, and what follows the group
      cannot continue it. */
  lemma KeyGroup(message: string)
    requires |message| > 0 && message[0] == KEY
    ensures var n := NameRun(message[1..]);
            && IsName(message[1..1 + n])
            && (1 + n < |message| ==> !IsNameChar(message[1 + n]))
  {
    var n := NameRun(message[1..]);
    assert message[1..1 + n] == message[1..][..n];
  }

  lemma TokenizeKeyStep(message: string)
    requires |message| > 0 && message[0] == KEY
    ensures var n := NameRun(message[1..]);
            Tokenize(message) == [Placeholder(message[1..1 + n])] + Tokenize(message[1 + n..])
  {
  }

  lemma KeySplit(message: string)
    requires |message| > 0 && message[0] == KEY
    ensures var n := NameRun(message[1..]);
            message == [KEY] + message[1..1 + n] + message[1 + n..]
  {
    var n := NameRun(message[1..]);
    SliceAround(message, 1, 1 + n);
    assert message[..1] == [KEY];
  }

  /** One half of the round trip: the tokens spell the message. */
  lemma {:induction false} TokenizeSpells(message: string)
    ensures Unparse(Tokenize(message)) == message
    decreases |message|
  {
    if |message| > 0 {
      if message[0] == KEY {
        var n := NameRun(message[1..]);
        var name := message[1..1 + n];
        var u := message[1 + n..];
        calc {
          Unparse(Tokenize(message));
          { TokenizeKeyStep(message); }
          Unparse([Placeholder(name)] + Tokenize(u));
          { UnparseCons(Placeholder(name), Tokenize(u)); }
          [KEY] + name + Unparse(Tokenize(u));
          { TokenizeSpells(u); }
          [KEY] + name + u;
          { KeySplit(message); }
          message;
        }
      } else {
        var u := message[1..];
        calc {
          Unparse(Tokenize(message));
          Unparse([Text(message[0])] + Tokenize(u));
          { UnparseCons(Text(message[0]), Tokenize(u)); }
          [message[0]] + Unparse(Tokenize(u));
          { TokenizeSpells(u); }
          [message[0]] + u;
          { HeadTail(message); }
          message;
        }
      }
    }
  }

  /** The tokens of any message are a sequence the matcher could have
      produced. */
  lemma {:induction false} TokenizeWellFormed(message: string)
    ensures WellFormed(Tokenize(message))
    decreases |message|
  {
    if |message| > 0 {
      if message[0] == KEY {
        var n := NameRun(message[1..]);
        var name := message[1..1 + n];
        var u := message[1 + n..];
        var rest := Tokenize(u);
        assert Tokenize(message) == [Placeholder(name)] + rest by {
          TokenizeKeyStep(message);
        }
        assert WellFormed([Placeholder(name)] + rest) by {
          KeyGroup(message);
          TokenizeWellFormed(u);
          TokenizeSpells(u);
          PlaceholderCons(name, u, rest);
        }
      } else {
        var u := message[1..];
        assert Tokenize(message) == [Text(message[0])] + Tokenize(u);
        assert WellFormed([Text(message[0])] + Tokenize(u)) by {
          TokenizeWellFormed(u);
          TextCons(message[0], Tokenize(u));
        }
      }
    }
  }

  lemma UnparseCons(t: Token, rest: seq<Token>)
    ensures Unparse([t] + rest) == TokenText(t) + Unparse(rest)
  {
    assert ([t] + rest)[1..] == rest;
  }

  lemma PlaceholderCons(name: string, u: string, rest: seq<Token>)
    requires IsName(name) && WellFormed(rest) && Unparse(rest) == u
    requires |u| > 0 ==> !IsNameChar(u[0])
    ensures WellFormed([Placeholder(name)] + rest)
  {
    var ts := [Placeholder(name)] + rest;
    assert ts[1..] == rest;
    if |rest| > 0 {
      assert u[0] == TokenText(rest[0])[0];
    }
  }

  lemma TextCons(c: char, rest: seq<Token>)
    requires c != KEY && WellFormed(rest)
    ensures WellFormed([Text(c)] + rest)
  {
    assert ([Text(c)] + rest)[1..] == rest;
  }

  /** A message without the key is all text. */
  lemma {:induction false} TokenizeNoKey(message: string)
    requires KEY !in message
    ensures forall i :: 0 <= i < |Tokenize(message)| ==> Tokenize(message)[i].Text?
    decreases |message|
  {
    if |message| > 0 {
      assert KEY !in message[1..] by {
        assert forall i :: 0 <= i < |message| - 1 ==> message[1..][i] == message[i + 1];
      }
      TokenizeNoKey(message[1..]);
    }
  }

  lemma TokenizeText(c: char, u: string)
    requires c != KEY
    ensures Tokenize([c] + u) == [Text(c)] + Tokenize(u)
  {
    assert ([c] + u)[1..] == u;
  }

  lemma TokenizePlaceholder(name: string, u: string)
    requires IsName(name)
    requires |u| > 0 ==> !IsNameChar(u[0])
    ensures Tokenize([KEY] + name + u) == [Placeholder(name)] + Tokenize(u)
  {
    var m := [KEY] + name + u;
    assert m[1..] == name + u;
    NameRunOf(name, u);
    assert m[1..1 + |name|] == name;
    assert m[1 + |name|..] == u;
  }

  /** The other half of the round trip: a well-formed token sequence is read
      back as itself. */
  lemma {:induction false} TokenizeUnparse(ts: seq<Token>)
    requires WellFormed(ts)
    ensures Tokenize(Unparse(ts)) == ts
    decreases |ts|
  {
    if |ts| > 0 {
      var u := Unparse(ts[1..]);
      assert ts[0].Placeholder? && |u| > 0 ==> !IsNameChar(u[0]) by {
        if |ts| > 1 {
          UnparseFirst(ts[1..]);
          assert ts[1..][0] == ts[1];
        }
      }
      calc {
        Tokenize(Unparse(ts));
        Tokenize(TokenText(ts[0]) + u);
        { TokenizeHead(ts[0], u); }
        [ts[0]] + Tokenize(u);
        { TokenizeUnparse(ts[1..]); }
        [ts[0]] + ts[1..];
        { HeadTail(ts); }
        ts;
      }
    }
  }

  /** The text of a non-empty token sequence starts with the text of its
      first token. */
  lemma UnparseFirst(ts: seq<Token>)
    requires |ts| > 0
    ensures |Unparse(ts)| > 0 && Unparse(ts)[0] == TokenText(ts[0])[0]
  {
  }

  lemma TokenizeHead(t: Token, u: string)
    requires t.Text? ==> t.c != KEY
    requires t.Placeholder? ==> IsName(t.name) && (|u| > 0 ==> !IsNameChar(u[0]))
    ensures Tokenize(TokenText(t) + u) == [t] + Tokenize(u)
  {
    match t
    case Text(c) => TokenizeText(c, u);
    case Placeholder(name) => TokenizePlaceholder(name, u);
  }

  /** The names the matcher's group captures, in order. */
  function Names(ts: seq<Token>): (names: seq<string>)
    ensures |names| <= |ts|
    decreases |ts|
  {
    if |ts| == 0 then []
    else if ts[0].Placeholder? then [ts[0].name] + Names(ts[1..])
    else Names(ts[1..])
  }

  /** The groups of the placeholders of `message`, in the order they are
      found. */
  function Placeholders(message: string): (groups: seq<string>)
    ensures KEY !in message ==> groups == []
  {
    var ts := Tokenize(message);
    if KEY !in message then TokenizeNoKey(message); NoPlaceholderNames(ts); Names(ts)
    else Names(ts)
  }

  lemma {:induction false} NoPlaceholderNames(ts: seq<Token>)
    requires forall i :: 0 <= i < |ts| ==> ts[i].Text?
    ensures Names(ts) == []
    decreases |ts|
  {
    if |ts| > 0 {
      assert forall i :: 0 <= i < |ts| - 1 ==> ts[1..][i] == ts[i + 1];
      NoPlaceholderNames(ts[1..]);
    }
  }

  // ---------------------------------------------------------------------------
  // Replacement values

  /** The object a group stands for: the invalid value for `value`, the
      annotation attribute of that name otherwise, `null` when there is none. */
  function Lookup(name: string, value: JavaObject, attributes: map<string, JavaObject>): (o: JavaObject)
    ensures name == "value" ==> o == value
    ensures name != "value" && name in attributes ==> o == attributes[name]
    ensures name != "value" && name !in attributes ==> o == Null
  {
    if name == "value" then value
    else if name in attributes then attributes[name]
    else Null
  }

  /** The text a group is replaced by: `smartQuote` of its object; a missing
      attribute is written `'null'`. Only a `Double` or `Float` can make
      `smartQuote` throw. */
  function Replacement(name: string, value: JavaObject, attributes: map<string, JavaObject>): (r: Result<string>)
    ensures name != "value" && name !in attributes ==> r == Ok("'null'")
    ensures r.Err? ==> Lookup(name, value, attributes).JNumber? && Lookup(name, value, attributes).n.Floating?
  {
    assert Quote("null", true) == "'null'";
    SmartQuote(Lookup(name, value, attributes))
  }

  /** The replacement text with the corrected `smartQuote`. */
  function ReplacementIntended(name: string, value: JavaObject, attributes: map<string, JavaObject>): (r: string)
    ensures name != "value" && name !in attributes ==> r == "'null'"
  {
    assert Quote("null", true) == "'null'";
    SmartQuoteIntended(Lookup(name, value, attributes))
  }

  /** Where the written replacement is computed, it is the corrected one. */
  lemma ReplacementAgrees(name: string, value: JavaObject, attributes: map<string, JavaObject>)
    ensures Replacement(name, value, attributes).Ok? ==>
      Replacement(name, value, attributes).value == ReplacementIntended(name, value, attributes)
  {
    SmartQuoteAgrees(Lookup(name, value, attributes));
  }

  // ---------------------------------------------------------------------------
  // Substitution as written

  /** One `message.replace("$" + group, smartQuote(...))` per group, each on
      the message the previous one produced; the first `smartQuote` that
      throws ends the loop. */
  function ReplaceEach(message: string, groups: seq<string>, value: JavaObject, attributes: map<string, JavaObject>): (r: Result<string>)
    ensures r.Err? <==> exists i :: 0 <= i < |groups| && Replacement(groups[i], value, attributes).Err?
    decreases |groups|
  {
    if |groups| == 0 then Ok(message)
    else
      var replacement := Replacement(groups[0], value, attributes);
      if replacement.Err? then Err(replacement.error)
      else
        var next := Replace(message, [KEY] + groups[0], replacement.value);
        var r := ReplaceEach(next, groups[1..], value, attributes);
        assert forall i :: 0 <= i < |groups| - 1 ==> groups[1..][i] == groups[i + 1];
        r
  }

  /** The substitution loop of `processViolation` as written: the groups are
      those of the original message, and every literal occurrence of
      `"$" + group` in the current message is replaced, wherever it is. It
      throws exactly where `smartQuote` of some group's object throws. */
  function SubstituteAsWritten(message: string, value: JavaObject, attributes: map<string, JavaObject>): (r: Result<string>)
    ensures KEY !in message ==> r == Ok(message)
    ensures r.Err? <==> exists g :: g in Placeholders(message) && Replacement(g, value, attributes).Err?
  {
    ReplaceEach(message, Placeholders(message), value, attributes)
  }

  // ---------------------------------------------------------------------------
  // Substitution as intended

  function RenderToken(t: Token, value: JavaObject, attributes: map<string, JavaObject>): string {
    match t
    case Text(c) => [c]
    case Placeholder(name) => ReplacementIntended(name, value, attributes)
  }

  /** The message with each match replaced by its own group's text, and
      everything else kept. */
  function Render(ts: seq<Token>, value: JavaObject, attributes: map<string, JavaObject>): string
    decreases |ts|
  {
    if |ts| == 0 then ""
    else RenderToken(ts[0], value, attributes) + Render(ts[1..], value, attributes)
  }

  lemma {:induction false} RenderAppend(a: seq<Token>, b: seq<Token>, value: JavaObject, attributes: map<string, JavaObject>)
    ensures Render(a + b, value, attributes) == Render(a, value, attributes) + Render(b, value, attributes)
    decreases |a|
  {
    if |a| > 0 {
      assert (a + b)[0] == a[0];
      assert (a + b)[1..] == a[1..] + b;
      RenderAppend(a[1..], b, value, attributes);
    } else {
      assert a + b == b;
    }
  }

  lemma {:induction false} RenderText(ts: seq<Token>, value: JavaObject, attributes: map<string, JavaObject>)
    requires forall i :: 0 <= i < |ts| ==> ts[i].Text?
    ensures Render(ts, value, attributes) == Unparse(ts)
    decreases |ts|
  {
    if |ts| > 0 {
      assert forall i :: 0 <= i < |ts| - 1 ==> ts[1..][i] == ts[i + 1];
      RenderText(ts[1..], value, attributes);
    }
  }

  /** The substitution as the comment above the loop describes it: every
      word marked with the key is replaced by the value of the attribute of
      that name, in one pass, so a replacement is never read again and one
      placeholder never rewrites part of another. A message without the key
      comes back unchanged. */
  function Substitute(message: string, value: JavaObject, attributes: map<string, JavaObject>): (r: string)
    ensures KEY !in message ==> r == message
    decreases |message|
  {
    if |message| == 0 then ""
    else if message[0] == KEY then
      var n := NameRun(message[1..]);
      ReplacementIntended(message[1..1 + n], value, attributes) + Substitute(message[1 + n..], value, attributes)
    else
      assert message == [message[0]] + message[1..];
      [message[0]] + Substitute(message[1..], value, attributes)
  }

  /** The substitution renders the tokens the matcher reads. */
  lemma {:induction false} SubstituteRendersTokens(message: string, value: JavaObject, attributes: map<string, JavaObject>)
    ensures Substitute(message, value, attributes) == Render(Tokenize(message), value, attributes)
    decreases |message|
  {
    if |message| > 0 {
      var ts := Tokenize(message);
      if message[0] == KEY {
        var n := NameRun(message[1..]);
        SubstituteRendersTokens(message[1 + n..], value, attributes);
        assert ts[1..] == Tokenize(message[1 + n..]);
      } else {
        SubstituteRendersTokens(message[1..], value, attributes);
        assert ts[1..] == Tokenize(message[1..]);
      }
    }
  }

  /** A message built from text and placeholders is rendered placeholder by
      placeholder: each one's replacement stands where it stood, between the
      unchanged pieces of text. */
  lemma SubstitutePieces(ts: seq<Token>, value: JavaObject, attributes: map<string, JavaObject>)
    requires WellFormed(ts)
    ensures Substitute(Unparse(ts), value, attributes) == Render(ts, value, attributes)
  {
    TokenizeUnparse(ts);
    SubstituteRendersTokens(Unparse(ts), value, attributes);
  }

  /** A placeholder is replaced by its own group's text, and the rest of the
      message is substituted on its own. */
  lemma SubstitutePlaceholderStep(name: string, u: string, value: JavaObject, attributes: map<string, JavaObject>)
    requires IsName(name)
    requires |u| > 0 ==> !IsNameChar(u[0])
    ensures Substitute([KEY] + name + u, value, attributes)
            == ReplacementIntended(name, value, attributes) + Substitute(u, value, attributes)
  {
    var m := [KEY] + name + u;
    assert m[1..] == name + u;
    NameRunOf(name, u);
    assert m[1..1 + |name|] == name;
    assert m[1 + |name|..] == u;
  }

  /** A character other than the key is copied. */
  lemma SubstituteTextStep(c: char, u: string, value: JavaObject, attributes: map<string, JavaObject>)
    requires c != KEY
    ensures Substitute([c] + u, value, attributes) == [c] + Substitute(u, value, attributes)
  {
    assert ([c] + u)[1..] == u;
  }

  /** Text free of the key is copied, whatever follows it. */
  lemma {:induction false} SubstituteTextPrefix(prefix: string, u: string, value: JavaObject, attributes: map<string, JavaObject>)
    requires KEY !in prefix
    ensures Substitute(prefix + u, value, attributes) == prefix + Substitute(u, value, attributes)
    decreases |prefix|
  {
    if |prefix| == 0 {
      assert prefix + u == u;
    } else {
      var c := prefix[0];
      var tail := prefix[1..] + u;
      calc {
        Substitute(prefix + u, value, attributes);
        { HeadTail(prefix); AppendAssociates([c], prefix[1..], u); }
        Substitute([c] + tail, value, attributes);
        { SubstituteTextStep(c, tail, value, attributes); }
        [c] + Substitute(tail, value, attributes);
        { assert KEY !in prefix[1..] by {
            assert forall i :: 0 <= i < |prefix| - 1 ==> prefix[1..][i] == prefix[i + 1];
          }
          SubstituteTextPrefix(prefix[1..], u, value, attributes); }
        [c] + (prefix[1..] + Substitute(u, value, attributes));
        { HeadTail(prefix); AppendAssociates([c], prefix[1..], Substitute(u, value, attributes)); }
        prefix + Substitute(u, value, attributes);
      }
    }
  }

  lemma {:induction false} UnparseAppend(a: seq<Token>, b: seq<Token>)
    ensures Unparse(a + b) == Unparse(a) + Unparse(b)
    decreases |a|
  {
    if |a| > 0 {
      assert (a + b)[0] == a[0];
      assert (a + b)[1..] == a[1..] + b;
      UnparseAppend(a[1..], b);
    } else {
      assert a + b == b;
    }
  }

  /** Text tokens of key-free text, one placeholder, and key-free text that
      does not continue the name, form a well-formed sequence. */
  lemma {:induction false} WellFormedJoin(p: seq<Token>, name: string, s: seq<Token>)
    requires WellFormed(p) && WellFormed(s)
    requires forall i :: 0 <= i < |p| ==> p[i].Text?
    requires IsName(name)
    requires |s| > 0 && s[0].Text? ==> !IsNameChar(s[0].c)
    ensures WellFormed(p + [Placeholder(name)] + s)
    decreases |p|
  {
    if |p| == 0 {
      assert p + [Placeholder(name)] + s == [Placeholder(name)] + s;
      assert ([Placeholder(name)] + s)[1..] == s;
    } else {
      assert (p + [Placeholder(name)] + s)[1..] == p[1..] + [Placeholder(name)] + s;
      assert forall i :: 0 <= i < |p| - 1 ==> p[1..][i] == p[i + 1];
      WellFormedJoin(p[1..], name, s);
    }
  }

  // ---------------------------------------------------------------------------
  // Where the written substitution is the intended one

  /** No group is a proper prefix of another: the condition under which no
      `replace` can take the start of a longer placeholder. */
  predicate NoPrefixClash(groups: seq<string>) {
    forall g, h :: g in groups && h in groups ==> !(g < h)
  }

  /** Every replacement text the written loop computes is free of the key,
      so no later `replace` can find a target inside it. */
  predicate KeyFreeReplacements(groups: seq<string>, value: JavaObject, attributes: map<string, JavaObject>) {
    forall g :: g in groups && Replacement(g, value, attributes).Ok? ==> KEY !in Replacement(g, value, attributes).value
  }

  /** Text never holds the key and every placeholder name is a run of name
      characters. */
  predicate KeyOnlyInPlaceholders(ts: seq<Token>) {
    forall i :: 0 <= i < |ts| ==> (ts[i].Text? ==> ts[i].c != KEY) && (ts[i].Placeholder? ==> IsName(ts[i].name))
  }

  /** A token once the written loop has replaced the groups in `done`: a
      placeholder of one of them stands as its text, anything else as it
      was. */
  function DonePiece(t: Token, done: seq<string>, value: JavaObject, attributes: map<string, JavaObject>): string {
    if t.Placeholder? && t.name in done then ReplacementIntended(t.name, value, attributes) else TokenText(t)
  }

  /** The message once the written loop has replaced the groups in `done`. */
  function RenderDone(ts: seq<Token>, done: seq<string>, value: JavaObject, attributes: map<string, JavaObject>): string
    decreases |ts|
  {
    if |ts| == 0 then "" else DonePiece(ts[0], done, value, attributes) + RenderDone(ts[1..], done, value, attributes)
  }

  lemma {:induction false} WellFormedKeys(ts: seq<Token>)
    requires WellFormed(ts)
    ensures KeyOnlyInPlaceholders(ts)
    decreases |ts|
  {
    if |ts| > 0 {
      WellFormedKeys(ts[1..]);
      assert forall i :: 1 <= i < |ts| ==> ts[i] == ts[1..][i - 1];
    }
  }

  lemma {:induction false} NamesHas(ts: seq<Token>, i: nat)
    requires i < |ts| && ts[i].Placeholder?
    ensures ts[i].name in Names(ts)
    decreases i
  {
    if i > 0 {
      NamesHas(ts[1..], i - 1);
    }
  }

  /** Nothing replaced yet: the message itself. */
  lemma {:induction false} RenderNoneDone(ts: seq<Token>, value: JavaObject, attributes: map<string, JavaObject>)
    ensures RenderDone(ts, [], value, attributes) == Unparse(ts)
    decreases |ts|
  {
    if |ts| > 0 {
      RenderNoneDone(ts[1..], value, attributes);
    }
  }

  /** Every group replaced: each placeholder stands as its own text. */
  lemma {:induction false} RenderAllDone(ts: seq<Token>, done: seq<string>, value: JavaObject, attributes: map<string, JavaObject>)
    requires forall i :: 0 <= i < |ts| && ts[i].Placeholder? ==> ts[i].name in done
    ensures RenderDone(ts, done, value, attributes) == Render(ts, value, attributes)
    decreases |ts|
  {
    if |ts| > 0 {
      assert forall i :: 1 <= i < |ts| ==> ts[i] == ts[1..][i - 1];
      RenderAllDone(ts[1..], done, value, attributes);
    }
  }

  /** `replace` does not look for a key-led target inside key-free text. */
  lemma {:induction false} ReplaceKeyFreePrefix(p: string, u: string, t: string, r: string)
    requires |t| > 0 && t[0] == KEY && KEY !in p
    ensures Replace(p + u, t, r) == p + Replace(u, t, r)
    decreases |p|
  {
    if |p| > 0 {
      assert KEY !in p[1..] by {
        assert forall i :: 0 <= i < |p| - 1 ==> p[1..][i] == p[i + 1];
      }
      assert (p + u)[0] == p[0] && (p + u)[1..] == p[1..] + u;
      ReplaceKeyFreePrefix(p[1..], u, t, r);
      AppendAssociates([p[0]], p[1..], Replace(u, t, r));
      HeadTail(p);
    } else {
      assert p + u == u;
    }
  }

  /** A name that is a prefix of another name followed by anything is
      related to that name: one of the two extends the other. */
  lemma PrefixOfExtension(g: string, n: string, rest: string)
    ensures g <= n + rest ==> g <= n || n <= g
  {
    if g <= n + rest {
      if |g| <= |n| {
        assert forall i :: 0 <= i < |g| ==> g[i] == (n + rest)[i] == n[i];
      } else {
        assert forall i :: 0 <= i < |n| ==> n[i] == (n + rest)[i] == g[i];
      }
    }
  }

  /** A key-led target is a prefix of a key-led text exactly when the
      parts after the keys are. */
  lemma KeyLedPrefix(g: string, s: string)
    ensures [KEY] + g <= [KEY] + s <==> g <= s
  {
    if [KEY] + g <= [KEY] + s {
      assert forall i :: 0 <= i < |g| ==> g[i] == ([KEY] + g)[i + 1] == ([KEY] + s)[i + 1] == s[i];
    }
  }

  /** A placeholder whose name is unrelated to `g` is not touched by the
      `replace` of `"$" + g`. */
  lemma ReplaceSkipsPlaceholder(n: string, g: string, rest: string, r: string)
    requires IsName(n) && !(g <= n) && !(n <= g)
    ensures Replace([KEY] + n + rest, [KEY] + g, r) == [KEY] + n + Replace(rest, [KEY] + g, r)
  {
    var t := [KEY] + g;
    PrefixOfExtension(g, n, rest);
    AppendAssociates([KEY], n, rest);
    KeyLedPrefix(g, n + rest);
    assert ([KEY] + n + rest)[1..] == n + rest;
    KeyFreeName(n);
    ReplaceKeyFreePrefix(n, rest, t, r);
    AppendAssociates([KEY], n, Replace(rest, t, r));
  }

  /** The `replace` of `"$" + g` on one token: the token is replaced when
      it is a standing placeholder named `g`, and kept otherwise. */
  lemma ReplacePiece(t: Token, rest: string, done: seq<string>, g: string, value: JavaObject, attributes: map<string, JavaObject>)
    requires t.Text? ==> t.c != KEY
    requires t.Placeholder? ==> IsName(t.name) && (t.name !in done ==> t.name == g || (!(g <= t.name) && !(t.name <= g)))
    requires t.Placeholder? && t.name in done ==> KEY !in ReplacementIntended(t.name, value, attributes)
    ensures var r := ReplacementIntended(g, value, attributes);
            Replace(DonePiece(t, done, value, attributes) + rest, [KEY] + g, r)
            == DonePiece(t, done + [g], value, attributes) + Replace(rest, [KEY] + g, r)
  {
    var r := ReplacementIntended(g, value, attributes);
    match t
    case Text(c) =>
      ReplaceSkip(c, rest, [KEY] + g, r);
    case Placeholder(n) =>
      if n in done {
        ReplaceKeyFreePrefix(ReplacementIntended(n, value, attributes), rest, [KEY] + g, r);
      } else if n == g {
        ReplaceAtStart([KEY] + g, rest, r);
      } else {
        ReplaceSkipsPlaceholder(n, g, rest, r);
      }
  }

  /** One `replace` of the written loop, for group `g`, turns exactly the
      placeholders named `g` into `g`'s text, provided `g` is not a proper
      prefix of any placeholder still standing and none of them is a proper
      prefix of `g`. */
  lemma {:induction false} ReplaceRenderStep(ts: seq<Token>, done: seq<string>, g: string, all: seq<string>, value: JavaObject, attributes: map<string, JavaObject>)
    requires KeyOnlyInPlaceholders(ts)
    requires forall i :: 0 <= i < |ts| && ts[i].Placeholder? ==> ts[i].name in all
    requires g in all && NoPrefixClash(all)
    requires forall a :: a in done ==> KEY !in ReplacementIntended(a, value, attributes)
    ensures Replace(RenderDone(ts, done, value, attributes), [KEY] + g, ReplacementIntended(g, value, attributes))
            == RenderDone(ts, done + [g], value, attributes)
    decreases |ts|
  {
    if |ts| > 0 {
      var tail := ts[1..];
      assert forall i :: 1 <= i < |ts| ==> ts[i] == tail[i - 1];
      ReplaceRenderStep(tail, done, g, all, value, attributes);
      if ts[0].Placeholder? {
        var n := ts[0].name;
        assert n in all;
        assert !(g < n) && !(n < g);
      }
      ReplacePiece(ts[0], RenderDone(tail, done, value, attributes), done, g, value, attributes);
    }
  }

  /** The written loop over `groups`, from a message in which the groups in
      `done` are already replaced: when it returns, exactly the placeholders
      of `done` and of `groups` stand as their text. */
  lemma {:induction false} ReplaceEachRender(ts: seq<Token>, done: seq<string>, groups: seq<string>, all: seq<string>,
                                              value: JavaObject, attributes: map<string, JavaObject>)
    requires KeyOnlyInPlaceholders(ts)
    requires forall i :: 0 <= i < |ts| && ts[i].Placeholder? ==> ts[i].name in all
    requires forall g :: g in groups ==> g in all
    requires NoPrefixClash(all) && KeyFreeReplacements(all, value, attributes)
    requires forall a :: a in done ==> KEY !in ReplacementIntended(a, value, attributes)
    ensures var r := ReplaceEach(RenderDone(ts, done, value, attributes), groups, value, attributes);
            r.Ok? ==> r.value == RenderDone(ts, done + groups, value, attributes)
    decreases |groups|
  {
    if |groups| == 0 {
      assert done + groups == done;
    } else {
      var g := groups[0];
      if Replacement(g, value, attributes).Ok? {
        ReplacementAgrees(g, value, attributes);
        ReplaceRenderStep(ts, done, g, all, value, attributes);
        assert forall h :: h in groups[1..] ==> h in groups;
        ReplaceEachRender(ts, done + [g], groups[1..], all, value, attributes);
        assert done + [g] + groups[1..] == done + groups by {
          HeadTail(groups);
          AppendAssociates(done, [g], groups[1..]);
        }
      }
    }
  }

  /** The written loop returns the intended substitution whenever it
      returns, provided no group is a proper prefix of another and no
      replacement text holds the key. It returns exactly when `smartQuote`
      returns for every group. */
  lemma SubstituteAgrees(message: string, value: JavaObject, attributes: map<string, JavaObject>)
    requires NoPrefixClash(Placeholders(message))
    requires KeyFreeReplacements(Placeholders(message), value, attributes)
    ensures SubstituteAsWritten(message, value, attributes).Ok? ==>
              SubstituteAsWritten(message, value, attributes).value == Substitute(message, value, attributes)
  {
    var ts := Tokenize(message);
    var all := Placeholders(message);
    assert all == Names(ts);
    TokenizeWellFormed(message);
    WellFormedKeys(ts);
    forall i | 0 <= i < |ts| && ts[i].Placeholder?
      ensures ts[i].name in all
    {
      NamesHas(ts, i);
    }
    TokenizeSpells(message);
    RenderNoneDone(ts, value, attributes);
    ReplaceEachRender(ts, [], all, all, value, attributes);
    assert [] + all == all;
    RenderAllDone(ts, all, value, attributes);
    SubstituteRendersTokens(message, value, attributes);
  }

  // ---------------------------------------------------------------------------
  // processViolation

  /** What `processViolation` reads from a `ConstraintViolation`: the
      invalid value, the message, whether the annotation belongs to the
      library, the annotation's attributes, and what `Level.toLevel` makes of
      its `level` attribute (`None` when it names no level). */
  datatype Violation = Violation(
    invalidValue: JavaObject,
    message: string,
    libraryAnnotation: bool,
    attributes: map<string, JavaObject>,
    parsedLevel: Option<Level>)

  /** The level a violation is logged at. */
  function ViolationLevel(v: Violation): Level {
    if v.libraryAnnotation then v.parsedLevel.GetOr(ERROR) else ERROR
  }

  /** The level and message `processViolation` logs, with the substitution
      loop as written. A violation of an annotation from outside the library
      is logged as it is, at `ERROR`; one of the library's own is logged at
      its `level` attribute (`ERROR` when that names no level) with its
      placeholders replaced, unless `smartQuote` throws on a group's
      `Double` or `Float` object. */
  function ProcessViolation(v: Violation): (r: Result<(Level, string)>)
    ensures !v.libraryAnnotation ==> r == Ok((ERROR, v.message))
    ensures r.Ok? ==> r.value.0 == (if v.libraryAnnotation && v.parsedLevel.Some? then v.parsedLevel.value else ERROR)
    ensures KEY !in v.message ==> r.Ok? && r.value.1 == v.message
    ensures r.Err? <==>
              (v.libraryAnnotation &&
               exists g :: g in Placeholders(v.message) && Replacement(g, v.invalidValue, v.attributes).Err?)
  {
    if v.libraryAnnotation then
      var message :- SubstituteAsWritten(v.message, v.invalidValue, v.attributes);
      Ok((ViolationLevel(v), message))
    else Ok((ERROR, v.message))
  }

  /** `processViolation` with the substitution the comment above its loop
      describes, and the corrected `smartQuote`: it never throws. */
  function ProcessViolationIntended(v: Violation): (r: (Level, string))
    ensures !v.libraryAnnotation ==> r == (ERROR, v.message)
    ensures v.libraryAnnotation ==> r.0 == (if v.parsedLevel.Some? then v.parsedLevel.value else ERROR)
    ensures KEY !in v.message ==> r.1 == v.message
  {
    if v.libraryAnnotation then
      (ViolationLevel(v), Substitute(v.message, v.invalidValue, v.attributes))
    else (ERROR, v.message)
  }

  /** Where the written `processViolation` logs, it logs what the intended
      one does, as long as no group of the message is a proper prefix of
      another and no replacement text holds the key. */
  lemma ProcessViolationAgrees(v: Violation)
    requires NoPrefixClash(Placeholders(v.message))
    requires KeyFreeReplacements(Placeholders(v.message), v.invalidValue, v.attributes)
    ensures ProcessViolation(v).Ok? ==> ProcessViolation(v).value == ProcessViolationIntended(v)
  {
    if v.libraryAnnotation {
      SubstituteAgrees(v.message, v.invalidValue, v.attributes);
    }
  }

  // ---------------------------------------------------------------------------
  // constructChild: merging parent and child violations

  function InvalidValues(vs: set<Violation>): (values: set<JavaObject>)
    ensures forall v :: v in vs ==> v.invalidValue in values
    ensures forall o :: o in values ==> exists v :: v in vs && v.invalidValue == o
  {
    set v | v in vs :: v.invalidValue
  }

  /** The violations `constructChild` processes: all of the parent
      constructor's, and those of the child constructor whose invalid value
      none of the parent's violations has. */
  function Merge(parents: set<Violation>, children: set<Violation>): (r: set<Violation>)
    ensures parents <= r <= parents + children
    ensures forall v :: v in children && v !in r ==> exists p :: p in parents && p.invalidValue == v.invalidValue
    ensures forall v, p :: v in r && v !in parents && p in parents ==> v.invalidValue != p.invalidValue
  {
    var values := InvalidValues(parents);
    parents + set v | v in children && v.invalidValue !in values
  }

  /** No invalid value is lost and none is reported from both sides: the
      merged set has exactly the invalid values of the two sets, and a value
      the parent reported is reported by the parent's violations alone. */
  lemma MergeValues(parents: set<Violation>, children: set<Violation>)
    ensures InvalidValues(Merge(parents, children)) == InvalidValues(parents) + InvalidValues(children)
    ensures forall v :: v in Merge(parents, children) && v.invalidValue in InvalidValues(parents) ==> v in parents
  {
    var r := Merge(parents, children);
    forall o | o in InvalidValues(children)
      ensures o in InvalidValues(r)
    {
      var v :| v in children && v.invalidValue == o;
      if v !in r {
        var p :| p in parents && p.invalidValue == v.invalidValue;
        assert p in r;
      }
    }
  }

  /** When parent and child report the same violations, each is processed
      once. */
  lemma MergeSame(vs: set<Violation>)
    ensures Merge(vs, vs) == vs
  {
  }

  // ---------------------------------------------------------------------------
  // Where the written substitution departs from the intended one

  /** `replace` of a target starting with a character the text lacks
      leaves the text alone. */
  lemma {:induction false} ReplaceMissingFirst(s: string, t: string, r: string)
    requires |t| > 0 && t[0] !in s
    ensures Replace(s, t, r) == s
    decreases |s|
  {
    if |s| > 0 {
      assert !(t <= s) by { assert s[0] != t[0]; }
      assert t[0] !in s[1..] by {
        assert forall i :: 0 <= i < |s| - 1 ==> s[1..][i] == s[i + 1];
      }
      ReplaceMissingFirst(s[1..], t, r);
      assert s == [s[0]] + s[1..];
    }
  }

  /** `replace` at a target that starts the text. */
  lemma ReplaceAtStart(t: string, rest: string, r: string)
    requires |t| > 0
    ensures Replace(t + rest, t, r) == r + Replace(rest, t, r)
  {
    assert t <= t + rest;
    assert (t + rest)[|t|..] == rest;
  }

  /** `replace` past a character that cannot start the target. */
  lemma ReplaceSkip(c: char, rest: string, t: string, r: string)
    requires |t| > 0 && c != t[0]
    ensures Replace([c] + rest, t, r) == [c] + Replace(rest, t, r)
  {
    assert ([c] + rest)[1..] == rest;
  }

  lemma KeyFreeName(name: string)
    requires IsName(name)
    ensures KEY !in name
  {
    assert forall i :: 0 <= i < |name| ==> name[i] != KEY;
  }

  lemma NameAppend(g: string, h: string)
    requires IsName(g) && IsName(h)
    ensures IsName(g + h)
  {
    assert forall i :: 0 <= i < |g + h| ==> (g + h)[i] == if i < |g| then g[i] else h[i - |g|];
  }

  /** How the matcher reads `"$" + g + " $" + g + h`: two placeholders, the
      second name extending the first, around a space. */
  lemma ExtendedNameTokens(g: string, h: string)
    requires IsName(g) && IsName(h)
    ensures Tokenize([KEY] + g + " " + [KEY] + g + h) == [Placeholder(g), Text(' '), Placeholder(g + h)]
  {
    var second := [KEY] + (g + h) + "";
    var rest := [' '] + second;
    NameAppend(g, h);
    calc {
      Tokenize([KEY] + g + " " + [KEY] + g + h);
      { ExtendedNameShape(g, h); }
      Tokenize([KEY] + g + rest);
      { TokenizePlaceholder(g, rest); }
      [Placeholder(g)] + Tokenize(rest);
      { TokenizeText(' ', second); }
      [Placeholder(g)] + ([Text(' ')] + Tokenize(second));
      { TokenizePlaceholder(g + h, ""); }
      [Placeholder(g)] + ([Text(' ')] + ([Placeholder(g + h)] + Tokenize("")));
      [Placeholder(g)] + ([Text(' ')] + [Placeholder(g + h)]);
      [Placeholder(g), Text(' '), Placeholder(g + h)];
    }
  }

  /** The message regrouped around its first placeholder. */
  lemma ExtendedNameShape(g: string, h: string)
    ensures [KEY] + g + " " + [KEY] + g + h == [KEY] + g + ([' '] + ([KEY] + (g + h) + ""))
  {
  }

  lemma ExtendedNamePlaceholders(g: string, h: string)
    requires IsName(g) && IsName(h)
    ensures Placeholders([KEY] + g + " " + [KEY] + g + h) == [g, g + h]
  {
    var ts := [Placeholder(g), Text(' '), Placeholder(g + h)];
    ExtendedNameTokens(g, h);
    assert Names(ts) == [g, g + h] by {
      assert ts[1..][1..] == [Placeholder(g + h)];
      assert Names(ts[1..][1..]) == [g + h];
    }
  }

  /** The first `replace` of the written loop, for `"$" + g`, rewrites both
      keys: the second time it takes the start of `"$" + g + h`. */
  lemma ExtendedNameFirstReplace(g: string, h: string, r: string)
    requires IsName(g) && IsName(h)
    ensures Replace([KEY] + g + " " + [KEY] + g + h, [KEY] + g, r) == r + " " + r + h
  {
    var t := [KEY] + g;
    KeyFreeName(h);
    calc {
      Replace([KEY] + g + " " + [KEY] + g + h, t, r);
      { assert [KEY] + g + " " + [KEY] + g + h == t + ([' '] + (t + h)); }
      Replace(t + ([' '] + (t + h)), t, r);
      { ReplaceAtStart(t, [' '] + (t + h), r); }
      r + Replace([' '] + (t + h), t, r);
      { ReplaceSkip(' ', t + h, t, r); }
      r + ([' '] + Replace(t + h, t, r));
      { ReplaceAtStart(t, h, r); }
      r + ([' '] + (r + Replace(h, t, r)));
      { ReplaceMissingFirst(h, t, r); }
      r + ([' '] + (r + h));
      r + " " + r + h;
    }
  }

  /** The written loop on `"$" + g + " $" + g + h`, when both
      `smartQuote` calls return. */
  lemma ExtendedNameAsWritten(g: string, h: string, value: JavaObject, attributes: map<string, JavaObject>)
    requires IsName(g) && IsName(h)
    requires Replacement(g, value, attributes).Ok? && Replacement(g + h, value, attributes).Ok?
    requires KEY !in Replacement(g, value, attributes).value
    ensures SubstituteAsWritten([KEY] + g + " " + [KEY] + g + h, value, attributes)
            == Ok(Replacement(g, value, attributes).value + " " + Replacement(g, value, attributes).value + h)
  {
    var m := [KEY] + g + " " + [KEY] + g + h;
    var rg := Replacement(g, value, attributes).value;
    var rgh := Replacement(g + h, value, attributes).value;
    var once := rg + " " + rg + h;
    calc {
      SubstituteAsWritten(m, value, attributes);
      { ExtendedNamePlaceholders(g, h); }
      ReplaceEach(m, [g, g + h], value, attributes);
      { assert [g, g + h][1..] == [g + h]; }
      ReplaceEach(Replace(m, [KEY] + g, rg), [g + h], value, attributes);
      { ExtendedNameFirstReplace(g, h, rg); }
      ReplaceEach(once, [g + h], value, attributes);
      ReplaceEach(Replace(once, [KEY] + (g + h), rgh), [], value, attributes);
      { KeyFreeName(h);
        assert KEY !in once;
        ReplaceMissingFirst(once, [KEY] + (g + h), rgh); }
      Ok(once);
    }
  }

  /** The intended substitution on `"$" + g + " $" + g + h`. */
  lemma ExtendedNameIntended(g: string, h: string, value: JavaObject, attributes: map<string, JavaObject>)
    requires IsName(g) && IsName(h)
    ensures Substitute([KEY] + g + " " + [KEY] + g + h, value, attributes)
            == ReplacementIntended(g, value, attributes) + " " + ReplacementIntended(g + h, value, attributes)
  {
    var m := [KEY] + g + " " + [KEY] + g + h;
    var rg := ReplacementIntended(g, value, attributes);
    var rgh := ReplacementIntended(g + h, value, attributes);
    var last := [Placeholder(g + h)];
    var ts := [Placeholder(g)] + ([Text(' ')] + last);
    assert Render(last, value, attributes) == rgh by {
      RenderCons(Placeholder(g + h), [], value, attributes);
    }
    RenderCons(Text(' '), last, value, attributes);
    RenderCons(Placeholder(g), [Text(' ')] + last, value, attributes);
    ExtendedNameTokens(g, h);
    assert Tokenize(m) == ts;
    SubstituteRendersTokens(m, value, attributes);
    AppendAssociates(rg, " ", rgh);
  }

  lemma RenderCons(t: Token, rest: seq<Token>, value: JavaObject, attributes: map<string, JavaObject>)
    ensures Render([t] + rest, value, attributes) == RenderToken(t, value, attributes) + Render(rest, value, attributes)
  {
    assert ([t] + rest)[1..] == rest;
  }

  /** A placeholder whose name is a prefix of a later placeholder's name
      rewrites the start of the later one, as written: in
      `"$" + g + " $" + g + h` both keys become `g`'s text and `h` is left
      over, so the value of `g + h` never appears. Substituted as intended,
      each placeholder gets its own text. The empty group is a prefix of
      every name, so a key followed by no name character (`g` empty) turns
      every later key into `'null'` when `""` is no attribute. The two
      results differ whenever `g`'s text followed by `h` is not the text of
      `g + h`, for instance for `"$min $minimum"` with `min` and `minimum`
      set to different strings, or for `"$ $value"`. */
  lemma ExtendedNameRewritten(g: string, h: string, value: JavaObject, attributes: map<string, JavaObject>)
    requires IsName(g) && IsName(h)
    requires Replacement(g, value, attributes).Ok? && Replacement(g + h, value, attributes).Ok?
    requires KEY !in Replacement(g, value, attributes).value
    requires Replacement(g, value, attributes).value + h != Replacement(g + h, value, attributes).value
    ensures var m := [KEY] + g + " " + [KEY] + g + h;
            SubstituteAsWritten(m, value, attributes) != Ok(Substitute(m, value, attributes))
  {
    var m := [KEY] + g + " " + [KEY] + g + h;
    ExtendedNameAsWritten(g, h, value, attributes);
    ExtendedNameIntended(g, h, value, attributes);
    ReplacementAgrees(g, value, attributes);
    ReplacementAgrees(g + h, value, attributes);
    OutcomesDiffer(SubstituteAsWritten(m, value, attributes), Substitute(m, value, attributes),
                   Replacement(g, value, attributes).value, h, Replacement(g + h, value, attributes).value);
  }

  /** The written outcome repeats `g`'s text where the intended one has
      `g + h`'s. */
  lemma OutcomesDiffer(written: Result<string>, intended: string, rg: string, h: string, rgh: string)
    requires written == Ok(rg + " " + rg + h) && intended == rg + " " + rgh
    requires rg + h != rgh
    ensures written != Ok(intended)
  {
    AppendAssociates(rg + " ", rg, h);
    SamePrefixDiffers(rg + " ", rg + h, rgh);
  }

  lemma SamePrefixDiffers(p: string, x: string, y: string)
    requires x != y
    ensures p + x != p + y
  {
    assert x == (p + x)[|p|..];
    assert y == (p + y)[|p|..];
  }

  /** An instance: `"$min $minimum"` with `min` set to `"a"` and `minimum`
      to `"b"`. */
  lemma MinMinimumExample()
    ensures var attributes := map["min" := JString("a"), "minimum" := JString("b")];
            var m := [KEY] + "min" + " " + [KEY] + "min" + "imum";
            SubstituteAsWritten(m, Null, attributes) != Ok(Substitute(m, Null, attributes))
  {
    var attributes := map["min" := JString("a"), "minimum" := JString("b")];
    assert IsName("min") && IsName("imum");
    assert "min" + "imum" == "minimum";
    assert Lookup("min", Null, attributes) == JString("a");
    assert Lookup("minimum", Null, attributes) == JString("b");
    assert Quote("a", false) == "\"a\"" && Quote("b", false) == "\"b\"";
    assert Replacement("min", Null, attributes) == Ok("\"a\"");
    assert Replacement("minimum", Null, attributes) == Ok("\"b\"");
    assert "\"a\"" + "imum" != "\"b\"";
    ExtendedNameRewritten("min", "imum", Null, attributes);
  }

  /** An instance with the empty group: `"$ $value"`, where the key of
      `$value` is taken by the bare key before it. */
  lemma BareKeyExample()
    ensures var m := [KEY] + "" + " " + [KEY] + "" + "value";
            SubstituteAsWritten(m, JString("v"), map[]) != Ok(Substitute(m, JString("v"), map[]))
  {
    var attributes: map<string, JavaObject> := map[];
    assert IsName("") && IsName("value");
    assert "" + "value" == "value";
    assert Replacement("", JString("v"), attributes) == Ok("'null'");
    assert Quote("v", false) == "\"v\"";
    assert Replacement("value", JString("v"), attributes) == Ok("\"v\"");
    assert "'null'" + "value" != "\"v\"";
    ExtendedNameRewritten("", "value", JString("v"), attributes);
  }
}
