/** The moderation commands a caster types on the cast channel: a line that
    starts with '/' is a command, the rest is split at the first space into a
    command word (compared in lower case) and one argument that keeps any
    further spaces. */
module Commands {
  import opened Text

  datatype Command =
    | Mute(target: string)
    | Unmute(target: string)
    | Ban(target: string)
    | Unban(target: string)
    | Spectators
    | Password(secret: string)
    | Kick(target: string)
  {
    /** The command word, in lower case. */
    function Word(): string {
      match this
      case Mute(_) => "mute"
      case Unmute(_) => "unmute"
      case Ban(_) => "ban"
      case Unban(_) => "unban"
      case Spectators => "spectators"
      case Password(_) => "password"
      case Kick(_) => "kick"
    }

    predicate TakesArgument() { !Spectators? }

    function Argument(): string
      requires TakesArgument()
    {
      match this
      case Mute(a) => a
      case Unmute(a) => a
      case Ban(a) => a
      case Unban(a) => a
      case Password(a) => a
      case Kick(a) => a
    }

    /** A command the parser can produce: every argument is non-empty. */
    predicate WellFormed() { TakesArgument() ==> Argument() != "" }
  }

  /** What a chat line on the cast channel turns into. */
  datatype Parsed =
    | NotCommand               // not for the parser; the line is cast chat
    | Run(cmd: Command)
    | NotEnoughParameters      // a known word whose argument is missing or empty
    | InvalidCommand           // an unknown word

  predicate IsCommand(text: string) {
    |text| > 0 && text[0] == '/'
  }

  const ArgumentWords: set<string> := {"mute", "unmute", "ban", "unban", "password", "kick"}

  function WithArgument(word: string, arg: string): (c: Command)
    requires word in ArgumentWords
    ensures c.TakesArgument() && c.Word() == word && c.Argument() == arg
  {
    if word == "mute" then Mute(arg)
    else if word == "unmute" then Unmute(arg)
    else if word == "ban" then Ban(arg)
    else if word == "unban" then Unban(arg)
    else if word == "password" then Password(arg)
    else Kick(arg)
  }

  function Parse(text: string): (p: Parsed)
    ensures p.NotCommand? <==> !IsCommand(text)
    ensures p.Run? ==> p.cmd.WellFormed()
  {
    if !IsCommand(text) then NotCommand
    else
      var t := SplitFirst(text[1..], ' ');
      var word := Lower(t[0]);
      var arg := if |t| == 2 then t[1] else "";
      if word in ArgumentWords then
        if arg == "" then NotEnoughParameters else Run(WithArgument(word, arg))
      else if word == "spectators" then Run(Spectators)
      else InvalidCommand
  }

  /** The chat line a caster types for a command. */
  function Render(c: Command): string {
    "/" + c.Word() + (if c.TakesArgument() then " " + c.Argument() else "")
  }

  lemma {:induction false} WordIsLower(c: Command)
    ensures ' ' !in c.Word() && Lower(c.Word()) == c.Word()
  {
    LowerFixed(c.Word());
  }

  /** Every command the parser can produce is read back from the line that
      renders it, argument and all (spaces inside it included). */
  lemma {:induction false} ParseRender(c: Command)
    requires c.WellFormed()
    ensures Parse(Render(c)) == Run(c)
  {
    var text := Render(c);
    WordIsLower(c);
    if c.TakesArgument() {
      assert text[1..] == c.Word() + [' '] + c.Argument();
      SplitFirstJoin(c.Word(), ' ', c.Argument());
    } else {
      assert text[1..] == "spectators";
    }
  }

  /** The command word is compared without regard to case. */
  lemma {:induction false} ParseIgnoresWordCase(word: string, arg: string)
    requires ' ' !in word
    ensures Parse("/" + word + " " + arg) == Parse("/" + Lower(word) + " " + arg)
  {
    var t1, t2 := "/" + word + " " + arg, "/" + Lower(word) + " " + arg;
    assert ' ' !in Lower(word) by {
      forall i | 0 <= i < |word| ensures Lower(word)[i] != ' ' {
        assert LowerChar(word[i]) == word[i] || IsUpper(word[i]);
      }
    }
    assert t1[1..] == word + [' '] + arg;
    assert t2[1..] == Lower(word) + [' '] + arg;
    SplitFirstJoin(word, ' ', arg);
    SplitFirstJoin(Lower(word), ' ', arg);
    LowerIdempotent(word);
  }

  /** A command that needs an argument, typed without one or with an empty
      one, asks for more parameters. */
  lemma {:induction false} MissingArgument(c: Command)
    requires c.TakesArgument()
    ensures Parse("/" + c.Word()) == NotEnoughParameters
    ensures Parse("/" + c.Word() + " ") == NotEnoughParameters
  {
    WordIsLower(c);
    assert ("/" + c.Word())[1..] == c.Word();
    assert ("/" + c.Word() + " ")[1..] == c.Word() + [' '] + "";
    SplitFirstJoin(c.Word(), ' ', "");
  }

  /** Only the first word decides: an unknown word is invalid whatever follows. */
  lemma {:induction false} UnknownWord(word: string, rest: string)
    requires ' ' !in word
    requires Lower(word) !in ArgumentWords && Lower(word) != "spectators"
    ensures Parse("/" + word + " " + rest) == InvalidCommand
  {
    assert ("/" + word + " " + rest)[1..] == word + [' '] + rest;
    SplitFirstJoin(word, ' ', rest);
  }
}
