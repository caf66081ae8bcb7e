/** The chat's command parser, and a printer that it inverts. */
module CommandParser {
  import opened Text
  import opened Wrappers

  datatype Intent = Remember | Ask | Search | Service | ServiceApprove | ServiceDeny | Help | Chat

  /** `isExplicit` is set for slash commands. */
  datatype Command = Command(intent: Intent, payload: string, isExplicit: bool, capability: Option<string>,
      taskId: Option<string>)

  datatype Parsed = Parsed(command: Command, originalText: string)

  const QUESTION_STARTERS := [
    "who", "what", "when", "where", "why", "how",
    "is", "are", "was", "were", "does", "did", "do",
    "can", "could", "will", "would", "should",
    "has", "have", "had"]

  function Plain(intent: Intent, payload: string, isExplicit: bool): Command {
    Command(intent, payload, isExplicit, None, None)
  }

  // ---- Tokens ------------------------------------------------------------------------------------

  /** The run of characters at the front that are not white space. */
  function Token(s: string): string {
    if s == [] || IsSpace(s[0]) then [] else [s[0]] + Token(s[1..])
  }

  function BehindToken(s: string): string {
    if s == [] || IsSpace(s[0]) then s else BehindToken(s[1..])
  }

  /** What follows the token, trimmed. */
  function Rest(s: string): string {
    Trim(BehindToken(s))
  }

  predicate IsLetter(c: char) {
    'a' <= c <= 'z' || 'A' <= c <= 'Z'
  }

  predicate IsIdChar(c: char) {
    IsLetter(c) || '0' <= c <= '9' || c == '_' || c == '.' || c == '-'
  }

  predicate IsValidTaskId(s: string) {
    s != [] && forall k :: 0 <= k < |s| ==> IsIdChar(s[k])
  }

  predicate IsValidCapabilityName(s: string) {
    IsValidTaskId(s) && IsLetter(s[0])
  }

  predicate IsQuestion(s: string) {
    (s != [] && s[|s| - 1] == '?') || LowerCaseAll(Token(s)) in QUESTION_STARTERS
  }

  // ---- The parser --------------------------------------------------------------------------------

  /** `parseServiceCommand` */
  function ParseService(payload: string, text: string): Command {
    var capability := Token(payload);
    if payload == [] || !IsValidCapabilityName(capability) then Plain(Chat, text, false)
    else Command(Service, Rest(payload), true, Some(capability), None)
  }

  /** `parseServiceApproveCommand`: what follows the id is dropped. */
  function ParseApprove(payload: string, text: string): Command {
    var id := Token(payload);
    if payload == [] || !IsValidTaskId(id) then Plain(Chat, text, false)
    else Command(ServiceApprove, [], true, None, Some(id))
  }

  /** `parseServiceDenyCommand`: what follows the id is the reason. */
  function ParseDeny(payload: string, text: string): Command {
    var id := Token(payload);
    if payload == [] || !IsValidTaskId(id) then Plain(Chat, text, false)
    else Command(ServiceDeny, Rest(payload), true, None, Some(id))
  }

  /** The names that follow a slash. */
  datatype Verb = ToRemember | ToAsk | ToSearch | ToService | ToApprove | ToDeny | ToHelp | ToNothing

  function NameOf(v: Verb): string {
    match v
    case ToRemember => "remember"
    case ToAsk => "ask"
    case ToSearch => "search"
    case ToService => "service"
    case ToApprove => "service_approve"
    case ToDeny => "service_deny"
    case ToHelp => "help"
    case ToNothing => []
  }

  function VerbOf(name: string): Verb {
    if name == "remember" then ToRemember
    else if name == "ask" then ToAsk
    else if name == "search" then ToSearch
    else if name == "service" then ToService
    else if name == "service_approve" then ToApprove
    else if name == "service_deny" then ToDeny
    else if name == "help" then ToHelp
    else ToNothing
  }

  function Dispatch(v: Verb, payload: string, text: string): Command {
    match v
    case ToRemember => Plain(Remember, payload, true)
    case ToAsk => Plain(Ask, payload, true)
    case ToSearch => Plain(Search, payload, true)
    case ToService => ParseService(payload, text)
    case ToApprove => ParseApprove(payload, text)
    case ToDeny => ParseDeny(payload, text)
    case ToHelp => Plain(Help, [], true)
    case ToNothing => Plain(Chat, text, false)
  }

  /** `parseSlashCommand` */
  function ParseSlash(text: string): Command
    requires text != [] && text[0] == '/'
  {
    var command := Token(text[1..]);
    if command == [] then Plain(Chat, text, false)
    else Dispatch(VerbOf(LowerCaseAll(command)), Rest(text[1..]), text)
  }

  /** `parseCommand` */
  function Parse(text: string): Parsed {
    var trimmed := Trim(text);
    if trimmed == [] then Parsed(Plain(Chat, [], false), text)
    else if trimmed[0] == '/' then Parsed(ParseSlash(trimmed), trimmed)
    else if IsQuestion(trimmed) then Parsed(Plain(Ask, trimmed, false), text)
    else Parsed(Plain(Chat, trimmed, false), text)
  }

  // ---- The printer -------------------------------------------------------------------------------

  function Spaced(payload: string): string {
    if payload == [] then [] else " " + payload
  }

  function Slash(v: Verb, arguments: string): string {
    ("/" + NameOf(v)) + Spaced(arguments)
  }

  function VerbFor(intent: Intent): Verb {
    match intent
    case Remember => ToRemember
    case Ask => ToAsk
    case Search => ToSearch
    case Service => ToService
    case ServiceApprove => ToApprove
    case ServiceDeny => ToDeny
    case Help => ToHelp
    case Chat => ToNothing
  }

  function Arguments(c: Command): string {
    match c.intent
    case Service => if c.capability.Some? then c.capability.value + Spaced(c.payload) else []
    case ServiceApprove => if c.taskId.Some? then c.taskId.value else []
    case ServiceDeny => if c.taskId.Some? then c.taskId.value + Spaced(c.payload) else []
    case _ => c.payload
  }

  function Render(c: Command): string {
    if c.isExplicit then Slash(VerbFor(c.intent), Arguments(c)) else c.payload
  }

  /** No or an unknown name, or a service command without a usable token. */
  predicate NoCommand(v: Verb, payload: string) {
    match v
    case ToNothing => true
    case ToService => !IsValidCapabilityName(Token(payload))
    case ToApprove => !IsValidTaskId(Token(payload))
    case ToDeny => !IsValidTaskId(Token(payload))
    case _ => false
  }

  /** A text that starts with a slash and yet is no command. */
  predicate IsNoCommand(text: string)
    requires text != [] && text[0] == '/'
  {
    NoCommand(VerbOf(LowerCaseAll(Token(text[1..]))), Rest(text[1..]))
  }

  /** What the parts of a command look like. */
  predicate HasParts(c: Command) {
    && Trimmed(c.payload)
    && (c.capability.Some? <==> c.intent == Service)
       && (c.taskId.Some? <==> c.intent == ServiceApprove || c.intent == ServiceDeny)
    && (c.capability.Some? ==> IsValidCapabilityName(c.capability.value))
       && (c.taskId.Some? ==> IsValidTaskId(c.taskId.value))
    && (c.intent == ServiceApprove || c.intent == Help ==> c.payload == [])
  }

  /** The commands there are. */
  predicate Valid(c: Command) {
    && HasParts(c)
    && (if c.isExplicit then c.intent != Chat
        else if c.intent == Ask then c.payload != [] && c.payload[0] != '/' && IsQuestion(c.payload)
        else
          && c.intent == Chat
          && (c.payload == [] || if c.payload[0] == '/' then IsNoCommand(c.payload) else !IsQuestion(c.payload)))
  }

  // ---- Tokens of rendered texts --------------------------------------------------------------------

  lemma {:induction false} TokenIs(w: string, r: string)
    requires NoSpace(w) && (r == [] || IsSpace(r[0]))
    ensures Token(w + r) == w && BehindToken(w + r) == r
    decreases |w|
  {
    if w == [] {
      assert w + r == r;
    } else {
      assert (w + r)[0] == w[0] && (w + r)[1..] == w[1..] + r;
      TokenIs(w[1..], r);
    }
  }

  lemma TrimSpaced(p: string)
    requires Trimmed(p)
    ensures Trim(Spaced(p)) == p
  {
    if p == [] {
      assert Trim([]) == [];
    } else {
      var s := " " + p;
      assert s[1] == p[0];
      assert SkipSpace(s, 1) == 1 && SkipSpace(s, 0) == 1;
      assert TrimStart(s) == p;
      TrimIsTrimmed(p);
      assert SkipSpaceBack(p, |p|) == |p|;
    }
  }

  /** A token and a payload behind it are found again. */
  lemma {:induction false} TokenAndRest(w: string, p: string)
    requires NoSpace(w) && Trimmed(p)
    ensures Token(w + Spaced(p)) == w && Rest(w + Spaced(p)) == p
  {
    TokenIs(w, Spaced(p));
    TrimSpaced(p);
  }

  lemma SpacedIsTrimmed(w: string, p: string)
    requires NoSpace(w) && w != [] && Trimmed(p)
    ensures Trimmed(w + Spaced(p))
  {
    var s := w + Spaced(p);
    assert s[0] == w[0];
    assert s[|s| - 1] == if p == [] then w[|w| - 1] else p[|p| - 1];
  }

  lemma IdHasNoSpace(s: string)
    requires IsValidTaskId(s)
    ensures NoSpace(s)
  {
    forall k | 0 <= k < |s| ensures !IsSpace(s[k]) {
    }
  }

  predicate IsName(w: string) {
    w != [] && forall k :: 0 <= k < |w| ==> 'a' <= w[k] <= 'z' || w[k] == '_'
  }

  lemma NameIsLower(w: string)
    requires IsName(w)
    ensures LowerCaseAll(w) == w && NoSpace(w)
  {
    forall k | 0 <= k < |w| ensures !IsSpace(w[k]) {
    }
  }

  lemma SlashHasNoSpace(w: string)
    requires IsName(w)
    ensures NoSpace("/" + w)
  {
    var s := "/" + w;
    NameIsLower(w);
    forall k | 0 <= k < |s| ensures !IsSpace(s[k]) {
      if k > 0 { assert s[k] == w[k - 1]; }
    }
  }

  lemma ParseTrimmed(text: string)
    requires Trimmed(text) && text != [] && text[0] == '/'
    ensures Parse(text) == Parsed(ParseSlash(text), text)
  {
    TrimIsTrimmed(text);
  }

  lemma Behind(w: string, r: string)
    ensures var text := ("/" + w) + r; text != [] && text[0] == '/' && text[1..] == w + r
  {
  }

  /** What the parser makes of a slash, a name and a payload. */
  lemma ParseName(w: string, p: string)
    requires IsName(w) && Trimmed(p)
    ensures var text := ("/" + w) + Spaced(p);
            && text != [] && text[0] == '/' && Parse(text).command == ParseSlash(text)
            && Token(text[1..]) == w && LowerCaseAll(w) == w && Rest(text[1..]) == p
  {
    Behind(w, Spaced(p));
    NameIsLower(w);
    TokenAndRest(w, p);
    assert Trimmed(("/" + w) + Spaced(p)) by {
      SlashHasNoSpace(w);
      SpacedIsTrimmed("/" + w, p);
    }
    ParseTrimmed(("/" + w) + Spaced(p));
  }

  lemma NamesAreNames(v: Verb)
    requires v != ToNothing
    ensures IsName(NameOf(v)) && VerbOf(NameOf(v)) == v
  {
  }

  lemma ParseSlashed(v: Verb, p: string)
    requires v != ToNothing && Trimmed(p)
    ensures Parse(Slash(v, p)).command == Dispatch(v, p, Slash(v, p))
  {
    NamesAreNames(v);
    ParseName(NameOf(v), p);
  }

  lemma ServiceTokens(id: string, payload: string)
    requires IsValidTaskId(id) && Trimmed(payload)
    ensures var p := id + Spaced(payload); Trimmed(p) && p != [] && Token(p) == id && Rest(p) == payload
  {
    IdHasNoSpace(id);
    SpacedIsTrimmed(id, payload);
    TokenAndRest(id, payload);
  }

  lemma ServiceArguments(id: string, payload: string, text: string)
    requires IsValidCapabilityName(id) && Trimmed(payload)
    ensures var p := id + Spaced(payload);
            Trimmed(p) && ParseService(p, text) == Command(Service, payload, true, Some(id), None)
  {
    ServiceTokens(id, payload);
  }

  lemma DenyArguments(id: string, payload: string, text: string)
    requires IsValidTaskId(id) && Trimmed(payload)
    ensures var p := id + Spaced(payload);
            Trimmed(p) && ParseDeny(p, text) == Command(ServiceDeny, payload, true, None, Some(id))
  {
    ServiceTokens(id, payload);
  }

  lemma ApproveArguments(id: string, text: string)
    requires IsValidTaskId(id)
    ensures Trimmed(id) && ParseApprove(id, text) == Command(ServiceApprove, [], true, None, Some(id))
  {
    ServiceTokens(id, []);
    assert id + Spaced([]) == id;
  }

  lemma DispatchService(c: Command, text: string)
    requires HasParts(c) && c.isExplicit && c.intent == Service
    ensures Trimmed(Arguments(c)) && Dispatch(ToService, Arguments(c), text) == c
  {
    ServiceArguments(c.capability.value, c.payload, text);
  }

  lemma DispatchApprove(c: Command, text: string)
    requires HasParts(c) && c.isExplicit && c.intent == ServiceApprove
    ensures Trimmed(Arguments(c)) && Dispatch(ToApprove, Arguments(c), text) == c
  {
    ApproveArguments(c.taskId.value, text);
  }

  lemma DispatchDeny(c: Command, text: string)
    requires HasParts(c) && c.isExplicit && c.intent == ServiceDeny
    ensures Trimmed(Arguments(c)) && Dispatch(ToDeny, Arguments(c), text) == c
  {
    DenyArguments(c.taskId.value, c.payload, text);
  }

  lemma DispatchPlain(c: Command, text: string)
    requires HasParts(c) && c.isExplicit && c.intent !in [Service, ServiceApprove, ServiceDeny, Chat]
    ensures Trimmed(Arguments(c)) && Dispatch(VerbFor(c.intent), Arguments(c), text) == c
  {
  }

  /** The arguments of an explicit command, dispatched on, yield the command. */
  lemma DispatchArguments(c: Command, text: string)
    requires HasParts(c) && c.isExplicit && c.intent != Chat
    ensures Trimmed(Arguments(c)) && Dispatch(VerbFor(c.intent), Arguments(c), text) == c
  {
    match c.intent
    case Service => DispatchService(c, text);
    case ServiceApprove => DispatchApprove(c, text);
    case ServiceDeny => DispatchDeny(c, text);
    case _ => DispatchPlain(c, text);
  }

  lemma EmptyToken()
    ensures Token([]) == [] && VerbOf(LowerCaseAll([])) == ToNothing
  {
  }

  lemma DispatchToChat(v: Verb, payload: string, text: string)
    ensures Dispatch(v, payload, text).intent == Chat <==> NoCommand(v, payload)
    ensures NoCommand(v, payload) ==> Dispatch(v, payload, text) == Plain(Chat, text, false)
  {
    EmptyToken();
  }

  lemma NoCommandIsChat(text: string)
    requires text != [] && text[0] == '/'
    ensures ParseSlash(text).intent == Chat <==> IsNoCommand(text)
    ensures IsNoCommand(text) ==> ParseSlash(text) == Plain(Chat, text, false)
  {
    EmptyToken();
    DispatchToChat(VerbOf(LowerCaseAll(Token(text[1..]))), Rest(text[1..]), text);
  }

  /** Rendering a command and parsing it again yields the command. */
  lemma RoundTrip(c: Command)
    requires Valid(c)
    ensures Parse(Render(c)).command == c
  {
    if c.isExplicit {
      DispatchArguments(c, Render(c));
      ParseSlashed(VerbFor(c.intent), Arguments(c));
    } else {
      TrimIsTrimmed(c.payload);
      if c.payload != [] && c.payload[0] == '/' { NoCommandIsChat(c.payload); }
    }
  }

  lemma RestIsTrimmed(s: string)
    ensures Trimmed(Rest(s))
  {
    TrimIsTrimmed(BehindToken(s));
  }

  lemma DispatchIsValid(v: Verb, payload: string, text: string)
    requires Trimmed(payload) && !NoCommand(v, payload)
    ensures Valid(Dispatch(v, payload, text))
  {
    RestIsTrimmed(payload);
    EmptyToken();
  }

  lemma SlashIsValid(text: string)
    requires Trimmed(text) && text != [] && text[0] == '/'
    ensures Valid(ParseSlash(text))
  {
    NoCommandIsChat(text);
    if !IsNoCommand(text) {
      EmptyToken();
      RestIsTrimmed(text[1..]);
      DispatchIsValid(VerbOf(LowerCaseAll(Token(text[1..]))), Rest(text[1..]), text);
    }
  }

  /** Every text parses to one of the commands there are. */
  lemma ParseIsValid(text: string)
    ensures Valid(Parse(text).command)
  {
    TrimIsTrimmed(text);
    var trimmed := Trim(text);
    if trimmed != [] && trimmed[0] == '/' { SlashIsValid(trimmed); }
  }

  /** Rendering what a text parses to and parsing that changes nothing. */
  lemma ReparseIsStable(text: string)
    ensures Parse(Render(Parse(text).command)).command == Parse(text).command
  {
    ParseIsValid(text);
    RoundTrip(Parse(text).command);
  }

  /** Different commands are rendered differently. */
  lemma RenderIsInjective(c: Command, d: Command)
    requires Valid(c) && Valid(d) && Render(c) == Render(d)
    ensures c == d
  {
    RoundTrip(c);
    RoundTrip(d);
  }

  /** The original text is kept as it was, but that of a slash command is trimmed. */
  lemma OriginalText(text: string)
    ensures Parse(text).originalText == if Trim(text) != [] && Trim(text)[0] == '/' then Trim(text) else text
  {
  }

  // ---- The commands, one by one ------------------------------------------------------------------

  /** A slash, a word, in any case of letters, and a payload. */
  lemma SlashWord(w: string, p: string)
    requires w != [] && NoSpace(w) && Trimmed(p)
    ensures var text := ("/" + w) + Spaced(p);
            && Trimmed(text) && text != [] && text[0] == '/' && Token(text[1..]) == w && Rest(text[1..]) == p
            && Parse(text) == Parsed(Dispatch(VerbOf(LowerCaseAll(w)), p, text), text)
  {
    var text := ("/" + w) + Spaced(p);
    Behind(w, Spaced(p));
    TokenAndRest(w, p);
    assert NoSpace("/" + w) by {
      forall k | 0 < k < |"/" + w| ensures !IsSpace(("/" + w)[k]) { assert ("/" + w)[k] == w[k - 1]; }
    }
    SpacedIsTrimmed("/" + w, p);
    ParseTrimmed(text);
  }

  lemma VerbsByName(name: string)
    ensures var v := VerbOf(name);
            && (v == ToRemember <==> name == "remember") && (v == ToAsk <==> name == "ask")
            && (v == ToSearch <==> name == "search") && (v == ToHelp <==> name == "help")
            && (v == ToService <==> name == "service") && (v == ToApprove <==> name == "service_approve")
            && (v == ToDeny <==> name == "service_deny")
  {
  }

  lemma DispatchedPlain(v: Verb, p: string, text: string)
    ensures v == ToRemember ==> Dispatch(v, p, text) == Command(Remember, p, true, None, None)
    ensures v == ToAsk ==> Dispatch(v, p, text) == Command(Ask, p, true, None, None)
    ensures v == ToSearch ==> Dispatch(v, p, text) == Command(Search, p, true, None, None)
    ensures v == ToHelp ==> Dispatch(v, p, text) == Command(Help, "", true, None, None)
    ensures v == ToNothing ==> Dispatch(v, p, text) == Command(Chat, text, false, None, None)
  {
  }

  /** The commands with a payload, and help, which drops it; any other name is chat, as it was typed. */
  lemma PlainCommands(w: string, p: string)
    requires w != [] && NoSpace(w) && Trimmed(p)
    ensures var text, name := ("/" + w) + Spaced(p), LowerCaseAll(w);
            && (name == "remember" ==> Parse(text).command == Command(Remember, p, true, None, None))
            && (name == "ask" ==> Parse(text).command == Command(Ask, p, true, None, None))
            && (name == "search" ==> Parse(text).command == Command(Search, p, true, None, None))
            && (name == "help" ==> Parse(text).command == Command(Help, "", true, None, None))
            && (name !in {"remember", "ask", "search", "help", "service", "service_approve", "service_deny"}
                ==> Parse(text).command == Command(Chat, text, false, None, None))
  {
    var text, name := ("/" + w) + Spaced(p), LowerCaseAll(w);
    SlashWord(w, p);
    VerbsByName(name);
    DispatchedPlain(VerbOf(name), p, text);
  }

  /** Letters, digits, underscore, full stop and hyphen. */
  predicate IdLike(s: string) {
    s != [] && forall k :: 0 <= k < |s| ==>
      'a' <= s[k] <= 'z' || 'A' <= s[k] <= 'Z' || '0' <= s[k] <= '9' || s[k] == '_' || s[k] == '.' || s[k] == '-'
  }

  /** The service commands take a first word, which must look like an id, and what follows, or drop that. */
  lemma ServiceCommands(w: string, id: string, rest: string)
    requires NoSpace(w) && LowerCaseAll(w) in {"service", "service_approve", "service_deny"}
    requires id != [] && NoSpace(id) && Trimmed(rest)
    ensures var text, name := ("/" + w) + Spaced(id + Spaced(rest)), LowerCaseAll(w);
            var letter := 'a' <= id[0] <= 'z' || 'A' <= id[0] <= 'Z';
            Parse(text).command ==
              if name == "service" && IdLike(id) && letter then Command(Service, rest, true, Some(id), None)
              else if name == "service_approve" && IdLike(id) then Command(ServiceApprove, "", true, None, Some(id))
              else if name == "service_deny" && IdLike(id) then Command(ServiceDeny, rest, true, None, Some(id))
              else Command(Chat, text, false, None, None)
  {
    var text, name := ("/" + w) + Spaced(id + Spaced(rest)), LowerCaseAll(w);
    SpacedIsTrimmed(id, rest);
    assert w != [];
    SlashWord(w, id + Spaced(rest));
    VerbsByName(name);
    DispatchedService(VerbOf(name), id, rest, text);
  }

  lemma DispatchedService(v: Verb, id: string, rest: string, text: string)
    requires v in [ToService, ToApprove, ToDeny] && id != [] && NoSpace(id) && Trimmed(rest)
    ensures var letter := 'a' <= id[0] <= 'z' || 'A' <= id[0] <= 'Z';
            Dispatch(v, id + Spaced(rest), text) ==
              if v == ToService && IdLike(id) && letter then Command(Service, rest, true, Some(id), None)
              else if v == ToApprove && IdLike(id) then Command(ServiceApprove, "", true, None, Some(id))
              else if v == ToDeny && IdLike(id) then Command(ServiceDeny, rest, true, None, Some(id))
              else Command(Chat, text, false, None, None)
  {
    TokenAndRest(id, rest);
    assert IdLike(id) <==> IsValidTaskId(id);
  }

  /** Without a first word they are chat. */
  lemma ServiceAlone(w: string)
    requires NoSpace(w) && LowerCaseAll(w) in {"service", "service_approve", "service_deny"}
    ensures Parse("/" + w).command == Command(Chat, "/" + w, false, None, None)
  {
    assert w != [] && ("/" + w) + Spaced([]) == "/" + w;
    SlashWord(w, []);
  }

  /** Other text is a question if it ends like one or starts with a word of a question, and chat otherwise. */
  lemma OtherText(w: string, r: string)
    requires w != [] && NoSpace(w) && w[0] != '/' && (r == [] || IsSpace(r[0])) && Trimmed(w + r)
    ensures var text := w + r;
            var starts := LowerCaseAll(w) in {"who", "what", "when", "where", "why", "how", "is", "are", "was", "were",
              "does", "did", "do", "can", "could", "will", "would", "should", "has", "have", "had"};
            var asks := text[|text| - 1] == '?' || starts;
            Parse(text) == Parsed(Command(if asks then Ask else Chat, text, false, None, None), text)
  {
    TokenIs(w, r);
    TrimIsTrimmed(w + r);
  }

  /** Only white space is nothing said; and white space around a text makes no difference to the command. */
  lemma OuterSpace(text: string)
    ensures Parse(text).command == Parse(Trim(text)).command
    ensures AllSpace(text) ==> Parse(text).command == Command(Chat, "", false, None, None)
  {
    TrimIsTrimmed(text);
    TrimIsTrimmed(Trim(text));
    if AllSpace(text) { BlankIsEmpty(text); }
  }

  lemma BlankIsEmpty(text: string)
    requires AllSpace(text)
    ensures Trim(text) == []
  {
    assert SkipSpace(text, 0) == |text|;
  }
}
