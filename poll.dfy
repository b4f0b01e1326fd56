/** The `!poll <title> <option>...` command: an embedded message whose
    description lists each option beside a keycap digit, followed by one
    reaction per listed option so members can vote. */
module Poll {
  import opened Text

  /** The two code points that turn a digit into its keycap emoji. */
  const Keycap: string := "\U{FE0F}\U{20E3}"

  /** The keycap emojis 1 to 9, in order. */
  const Reactions: seq<string> := [
    "\U{31}\U{FE0F}\U{20E3}",
    "\U{32}\U{FE0F}\U{20E3}",
    "\U{33}\U{FE0F}\U{20E3}",
    "\U{34}\U{FE0F}\U{20E3}",
    "\U{35}\U{FE0F}\U{20E3}",
    "\U{36}\U{FE0F}\U{20E3}",
    "\U{37}\U{FE0F}\U{20E3}",
    "\U{38}\U{FE0F}\U{20E3}",
    "\U{39}\U{FE0F}\U{20E3}"
  ]

  const NoArguments: string := "Invalid number of arguments to !poll"

  /** The embed colour, red/green/blue. */
  datatype Colour = Rgb(red: nat, green: nat, blue: nat)

  const PollColour: Colour := Rgb(0, 106, 176)

  /** The message a poll sends and the reactions it then adds, in order. */
  datatype PollMessage = PollMessage(title: string, description: string, colour: Colour,
                                     reactions: seq<string>)

  /** One line of the description: the reaction, a space, and the option in backticks. */
  function OptionLine(reaction: string, option: string): string
  {
    reaction + " `" + option + "`"
  }

  /** The options zipped with the reactions: the shorter of the two decides the length. */
  function OptionLines(options: seq<string>, reactions: seq<string>): (lines: seq<string>)
    ensures |lines| == Min(|options|, |reactions|)
    ensures forall i :: 0 <= i < |lines| ==> lines[i] == OptionLine(reactions[i], options[i])
    decreases |options|
  {
    if options == [] || reactions == [] then []
    else [OptionLine(reactions[0], options[0])] + OptionLines(options[1..], reactions[1..])
  }

  /** The poll for a message, with the title's upper-casing passed in. */
  function PollOf(content: string, upper: string -> string): (r: Result<PollMessage>)
  {
    var args := CommandArgs(content);
    if args == [] then Err(NoArguments)
    else
      var title := args[0];
      var options := args[1..];
      Ok(PollMessage(upper(title),
                     Join(OptionLines(options, Reactions), "\n"),
                     PollColour,
                     Reactions[..Min(|options|, |Reactions|)]))
  }

  /** Reaction i is the keycap emoji of digit i + 1. */
  lemma ReactionsAreKeycaps()
    ensures |Reactions| == 9
    ensures forall i :: 0 <= i < 9 ==> Reactions[i] == [('1' as int + i) as char] + Keycap
  {
    forall i | 0 <= i < 9
      ensures Reactions[i] == [('1' as int + i) as char] + Keycap
    {
      assert Reactions[i][0] == ('1' as int + i) as char;
      assert Reactions[i][1..] == Keycap;
    }
  }

  /** A poll fails exactly when the message has no arguments, that is no space;
      otherwise the first argument is the title and the rest are the options. */
  lemma PollArguments(content: string, upper: string -> string)
    ensures PollOf(content, upper).Err? <==> ' ' !in content
    ensures PollOf(content, upper).Err? ==> PollOf(content, upper).message == NoArguments
    ensures PollOf(content, upper).Ok? ==>
      var args := CommandArgs(content);
      PollOf(content, upper).value.title == upper(args[0])
  {
  }

  /** At most nine options are listed and voted on: the reactions are the first
      min(|options|, 9) keycaps in order and there is one description line each. */
  lemma PollBound(content: string, upper: string -> string)
    requires ' ' in content
    ensures var options := CommandArgs(content)[1..];
      var k := Min(|options|, 9);
      var poll := PollOf(content, upper);
      && poll.Ok?
      && |poll.value.reactions| == k <= 9
      && (forall i :: 0 <= i < k ==> poll.value.reactions[i] == Reactions[i])
      && poll.value.title == upper(CommandArgs(content)[0])
      && poll.value.description == Join(OptionLines(options, Reactions), "\n")
      && poll.value.reactions == Reactions[..k]
      && |OptionLines(options, Reactions)| == k
  {
  }

  /** A line holds a line break only if its reaction or option does. */
  lemma LineBreakFree(reaction: string, option: string)
    requires '\n' !in reaction && '\n' !in option
    ensures '\n' !in OptionLine(reaction, option)
  {
  }

  /** No reaction holds a line break. */
  lemma ReactionsOnOneLine()
    ensures forall i :: 0 <= i < |Reactions| ==> '\n' !in Reactions[i]
  {
    ReactionsAreKeycaps();
  }

  /** No description line holds a line break when no option does, so the
      description splits back into exactly its option lines. */
  lemma DescriptionLines(options: seq<string>)
    requires |options| >= 1
    requires forall k :: 0 <= k < |options| ==> '\n' !in options[k]
    ensures Split(Join(OptionLines(options, Reactions), "\n"), '\n') == OptionLines(options, Reactions)
  {
    var lines := OptionLines(options, Reactions);
    ReactionsOnOneLine();
    forall k | 0 <= k < |lines|
      ensures '\n' !in lines[k]
    {
      LineBreakFree(Reactions[k], options[k]);
    }
    SplitJoin(lines, '\n');
  }

  /** `!poll <title> <option>...` with space-free words takes the first word
      as the title and lists the others in order. */
  lemma PollOfWords(command: string, words: seq<string>, content: string, upper: string -> string)
    requires ' ' !in command
    requires |words| >= 1
    requires forall k :: 0 <= k < |words| ==> ' ' !in words[k]
    requires content == command + [' '] + Join(words, " ")
    ensures var poll := PollOf(content, upper);
      && poll.Ok?
      && poll.value.title == upper(words[0])
      && poll.value.description == Join(OptionLines(words[1..], Reactions), "\n")
      && poll.value.reactions == Reactions[..Min(|words| - 1, 9)]
  {
    CommandArgsWords(command, words);
    var args := CommandArgs(content);
    assert args == words;
    assert args[1..] == words[1..] && |words[1..]| == |words| - 1;
    PollBound(content, upper);
  }
}
