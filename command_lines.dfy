/**
 * `CommandGenerator.convert_to_list` and the last step of both
 * `generate_commands`: the rendered template text is cut into commands at
 * every newline. The rendering itself is an input.
 */
module CommandLines {
  import opened PyText

  /** `to_convert.split("\n")`: one command per line, the text between newlines. */
  function ConvertToList(rendered: string): (lines: seq<string>)
    ensures |lines| == Count(rendered, '\n') + 1
    ensures forall k :: 0 <= k < |lines| ==> '\n' !in lines[k]
    ensures Join(lines, '\n') == rendered
  {
    SplitCount(rendered, '\n');
    JoinSplit(rendered, '\n');
    Split(rendered, '\n')
  }

  /** Commands without newlines, joined by newlines, come back one by one. */
  lemma CommandsRoundTrip(commands: seq<string>)
    requires |commands| >= 1
    requires forall k :: 0 <= k < |commands| ==> '\n' !in commands[k]
    ensures ConvertToList(Join(commands, '\n')) == commands
  {
    SplitJoin(commands, '\n');
  }

  /** A rendering that ends in a newline yields an empty last command. */
  lemma TrailingNewline(rendered: string)
    ensures ConvertToList(rendered + "\n") == ConvertToList(rendered) + [""]
  {
    var lines := ConvertToList(rendered);
    JoinSnoc(lines, "", '\n');
    assert Join(lines + [""], '\n') == rendered + "\n";
    CommandsRoundTrip(lines + [""]);
  }

  /** A one-line rendering is one command. */
  lemma SingleLine(rendered: string)
    requires '\n' !in rendered
    ensures ConvertToList(rendered) == [rendered]
  {
    SplitNoSeparator(rendered, '\n');
  }
}
