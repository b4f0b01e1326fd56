/** The `!agenda` command: a list of meeting-agenda entries kept between
    commands, changed by `add` and `clear`, rendered by `show` (a message to
    the `meetings` channel) and `export` (a markdown file sent back). */
module Agenda {
  import opened Text

  /** Reaction for a sub-command with no immediate result (✅). */
  const Acknowledged: string := "\U{2705}"
  /** Reaction for an unrecognised sub-command (❌). */
  const Failure: string := "\U{274C}"

  const NoItems: string := "**No items recorded** - sorry about that"
  const EntryLead: string := "\n** - "
  const EntrySeparator: string := "**\t\t"

  /** What the lookup of the `meetings` channel found. */
  datatype Meetings = OutsideGuild | NoMeetingsChannel | MeetingsChannel

  /** What a sub-command does towards the chat, in place of the calls that do it. */
  datatype Outcome =
    | Reacted(emoji: string)
    | Posted(text: string)
    | Attached(fileName: string, document: string, caption: string)
    | Error(reason: string)

  /** The entry `add` records: `"\n** - {author}**\t\t{item}"`, with every
      `*` removed from the author's name and the item words rejoined by spaces. */
  function Entry(author: string, words: seq<string>): string
  {
    EntryLead + Remove(author, '*') + EntrySeparator + Join(words, " ")
  }

  /** Reads an entry back into its author and item text. */
  function ParseEntry(e: string): Option<(string, string)>
  {
    if |e| < |EntryLead| || e[..|EntryLead|] != EntryLead then None
    else
      var rest := e[|EntryLead|..];
      var n := IndexOf(rest, '*');
      if |rest| < n + |EntrySeparator| || rest[n..n + |EntrySeparator|] != EntrySeparator then None
      else Some((rest[..n], rest[n + |EntrySeparator|..]))
  }

  /** The text `show` posts. */
  function ShowText(items: seq<string>, date: string): string
  {
    if |items| == 0 then NoItems
    else "**Meeting Agenda " + date + "**" + Concat(items)
  }

  /** The markdown document `export` writes. */
  function ExportText(items: seq<string>, date: string): string
  {
    "# Meeting Agenda " + date + Concat(items)
  }

  function ExportFileName(date: string): string
  {
    "agenda-" + date + ".md"
  }

  function ExportCaption(date: string): string
  {
    "**Meeting Agenda " + date + "\n**"
  }

  /** What `show` does, given how the `meetings` channel lookup ended. */
  function ShowOutcome(items: seq<string>, date: string, meetings: Meetings): Outcome
  {
    match meetings
    case OutsideGuild => Error("Message occurred outside of a Guild environment.")
    case NoMeetingsChannel => Error("Failed to find a channel with the name: 'meetings'")
    case MeetingsChannel => Posted(ShowText(items, date))
  }

  function ExportOutcome(items: seq<string>, date: string): Outcome
  {
    Attached(ExportFileName(date), ExportText(items, date), ExportCaption(date))
  }

  /** The sub-command dispatch on `args[0]`: the outcome and the new list. */
  function Dispatch(items: seq<string>, args: seq<string>, author: string, date: string,
                    meetings: Meetings): (Outcome, seq<string>)
    requires |args| >= 1
  {
    match args[0]
    case "add" => (Reacted(Acknowledged), items + [Entry(author, args[1..])])
    case "show" => (ShowOutcome(items, date, meetings), items)
    case "export" => (ExportOutcome(items, date), items)
    case "clear" => (Reacted(Acknowledged), [])
    case _ => (Reacted(Failure), items)
  }

  predicate IsSubCommand(word: string)
  {
    word == "add" || word == "show" || word == "export" || word == "clear"
  }

  /** The agenda kept between commands. */
  class Agenda {
    var items: seq<string>

    constructor()
      ensures items == []
    {
      items := [];
    }

    /** `add`: push one entry. */
    method Add(author: string, words: seq<string>)
      modifies this
      ensures items == old(items) + [Entry(author, words)]
    {
      items := items + [Entry(author, words)];
    }

    /** `clear`: empty the list. */
    method Clear()
      modifies this
      ensures items == []
    {
      items := [];
    }

    /** Handles one `!agenda` message. The message needs a space: without
        one there is no `args[0]` and the handler panics. */
    method Run(content: string, author: string, date: string, meetings: Meetings)
      returns (outcome: Outcome)
      requires ' ' in content
      modifies this
      ensures CommandArgs(content) != []
      ensures (outcome, items) == Dispatch(old(items), CommandArgs(content), author, date, meetings)
    {
      var args := CommandArgs(content);
      if args[0] == "add" {
        Add(author, args[1..]);
        outcome := Reacted(Acknowledged);
      } else if args[0] == "show" {
        outcome := ShowOutcome(items, date, meetings);
      } else if args[0] == "export" {
        outcome := ExportOutcome(items, date);
      } else if args[0] == "clear" {
        Clear();
        outcome := Reacted(Acknowledged);
      } else {
        outcome := Reacted(Failure);
      }
    }
  }

  /** `add` appends exactly one entry at the tail; earlier entries keep their places. */
  lemma AddAppendsOne(items: seq<string>, args: seq<string>, author: string, date: string,
                      meetings: Meetings)
    requires |args| >= 1 && args[0] == "add"
    ensures var (outcome, after) := Dispatch(items, args, author, date, meetings);
      && outcome == Reacted(Acknowledged)
      && |after| == |items| + 1
      && after[..|items|] == items
      && after[|items|] == Entry(author, args[1..])
  {
  }

  /** `clear` empties the list, and a second `clear` changes nothing. */
  lemma ClearIdempotent(items: seq<string>, args: seq<string>, args2: seq<string>,
                        author: string, date: string, meetings: Meetings)
    requires |args| >= 1 && args[0] == "clear"
    requires |args2| >= 1 && args2[0] == "clear"
    ensures Dispatch(items, args, author, date, meetings).1 == []
    ensures var once := Dispatch(items, args, author, date, meetings).1;
      Dispatch(once, args2, author, date, meetings) == Dispatch(items, args, author, date, meetings)
  {
  }

  /** Only `add` and `clear` change the list. */
  lemma OnlyAddAndClearChange(items: seq<string>, args: seq<string>, author: string,
                              date: string, meetings: Meetings)
    requires |args| >= 1
    ensures Dispatch(items, args, author, date, meetings).1 != items ==> args[0] == "add" || args[0] == "clear"
  {
  }

  /** The failure reaction comes exactly for a word that is not a sub-command, and then nothing changes. */
  lemma UnknownSubCommand(items: seq<string>, args: seq<string>, author: string,
                          date: string, meetings: Meetings)
    requires |args| >= 1
    ensures Dispatch(items, args, author, date, meetings).0 == Reacted(Failure) <==> !IsSubCommand(args[0])
    ensures !IsSubCommand(args[0]) ==> Dispatch(items, args, author, date, meetings).1 == items
  {
    assert Acknowledged != Failure by { assert Acknowledged[0] != Failure[0]; }
  }

  /** `show` apologises exactly when the agenda is empty; `export` writes
      the dated heading even then. */
  lemma RenderedEntries(items: seq<string>, date: string)
    ensures |items| == 0 <==> ShowText(items, date) == NoItems
    ensures ExportText([], date) == "# Meeting Agenda " + date
  {
    if |items| > 0 {
      var heading := "**Meeting Agenda ";
      var t := ShowText(items, date);
      assert t == heading + (date + "**" + Concat(items));
      assert t[2] == heading[2] == 'M';
      assert NoItems[2] == 'N';
    }
    assert Concat([]) == [];
  }

  /** The exported file is a markdown file named after the date, and the
      date can be read back from the name. */
  lemma ExportFileNameHoldsDate(date: string)
    ensures var name := ExportFileName(date);
      && |name| == |date| + 10
      && name[..7] == "agenda-"
      && name[|name| - 3..] == ".md"
      && name[7..|name| - 3] == date
  {
  }

  /** An `add` makes the rendered agenda grow by exactly the new entry. */
  lemma RenderAfterAdd(items: seq<string>, e: string, date: string)
    ensures ExportText(items + [e], date) == ExportText(items, date) + e
    ensures |items| > 0 ==> ShowText(items + [e], date) == ShowText(items, date) + e
    ensures |items| == 0 ==> ShowText(items + [e], date) == "**Meeting Agenda " + date + "**" + e
  {
    ConcatSnoc(items, e);
    if |items| == 0 {
      assert items + [e] == [e];
      assert Concat([e]) == e + Concat([]);
    }
  }

  /** An entry reads back as the sanitised author and the item text unchanged. */
  lemma EntryRoundTrip(author: string, words: seq<string>)
    ensures ParseEntry(Entry(author, words)) == Some((Remove(author, '*'), Join(words, " ")))
  {
    var a := Remove(author, '*');
    var t := Join(words, " ");
    var e := Entry(author, words);
    var rest := a + EntrySeparator + t;
    assert e == EntryLead + rest;
    assert e[..|EntryLead|] == EntryLead;
    assert e[|EntryLead|..] == rest;
    assert rest[|a|] == '*';
    assert forall j :: 0 <= j < |a| ==> rest[j] == a[j];
    IndexFromIs(rest, 0, '*', |a|);
    assert rest[..|a|] == a;
    assert rest[|a|..|a| + |EntrySeparator|] == EntrySeparator;
    assert rest[|a| + |EntrySeparator|..] == t;
  }

  /** The item recorded by `!agenda add <text>` is the text typed after
      `add `, spaces and all. */
  lemma AddKeepsText(command: string, text: string, author: string, date: string,
                     meetings: Meetings, items: seq<string>)
    requires ' ' !in command
    ensures var args := CommandArgs(command + " add " + text);
      && |args| >= 1 && args[0] == "add"
      && Dispatch(items, args, author, date, meetings).1 == items + [EntryLead + Remove(author, '*') + EntrySeparator + text]
  {
    var content := command + " add " + text;
    assert content == command + [' '] + ("add" + [' '] + text);
    CommandArgsOf(command, "add" + [' '] + text);
    SplitPrefix("add", [' '] + text, ' ');
    assert ([' '] + text)[0] == ' ' && ([' '] + text)[1..] == text;
    var st := Split(text, ' ');
    assert Split([' '] + text, ' ') == [[]] + st;
    assert "add" + [' '] + text == "add" + ([' '] + text);
    assert "add" + [] == "add";
    var args := CommandArgs(content);
    assert args == ["add"] + st;
    assert args[1..] == st;
    JoinSplit(text, ' ');
  }

  /** Two `add`s record their entries in the order they were made. */
  lemma AddsInOrder(items: seq<string>, args1: seq<string>, args2: seq<string>,
                    author1: string, author2: string, date: string, meetings: Meetings)
    requires |args1| >= 1 && args1[0] == "add"
    requires |args2| >= 1 && args2[0] == "add"
    ensures var after1 := Dispatch(items, args1, author1, date, meetings).1;
      Dispatch(after1, args2, author2, date, meetings).1
        == items + [Entry(author1, args1[1..]), Entry(author2, args2[1..])]
  {
  }
}
