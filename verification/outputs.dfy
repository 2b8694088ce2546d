/**
 * Reading the connected outputs from the text `xrandr --query` prints
 * (`get_connected_outputs`). Running the command is not modelled: its
 * output is an input here. The regular expression `^([\w\d-]*) connected .*$`
 * is applied in multi-line mode, so it is tried at the start of every line.
 * Because a space is not an identifier character, the identifier group can
 * only end where the longest run of identifier characters ends, and the
 * line matches exactly when that run is followed by " connected ".
 */
module Outputs {
  import opened Wrappers
  import opened Text

  /** The ASCII characters matched by the regular-expression class `\w`. */
  predicate IsWordChar(c: char) {
    'a' <= c <= 'z' || 'A' <= c <= 'Z' || '0' <= c <= '9' || c == '_'
  }

  /** A character of the class `[\w\d-]`. */
  predicate IsIdChar(c: char) {
    IsWordChar(c) || c == '-'
  }

  predicate AllIdChars(s: string) {
    forall i | 0 <= i < |s| :: IsIdChar(s[i])
  }

  /** The text that must follow the output name. */
  const Marker: string := " connected "

  /** Length of the longest prefix of identifier characters. */
  function IdLength(line: string): (n: nat)
    ensures n <= |line|
    ensures AllIdChars(line[..n])
    ensures n == |line| || !IsIdChar(line[n])
  {
    if |line| > 0 && IsIdChar(line[0]) then
      var n := IdLength(line[1..]) + 1;
      assert forall i | 1 <= i < n :: line[..n][i] == line[1..][..n - 1][i - 1];
      n
    else 0
  }

  /** The match of the expression on one line: the output name when the
      line is a name followed by " connected ". */
  function MatchLine(line: string): (r: Option<string>)
    ensures r.Some? ==> AllIdChars(r.value)
    ensures r.Some? ==> |r.value| + |Marker| <= |line| && line[..|r.value| + |Marker|] == r.value + Marker
  {
    var n := IdLength(line);
    if n + |Marker| <= |line| && line[n..n + |Marker|] == Marker then
      assert line[..n + |Marker|] == line[..n] + line[n..n + |Marker|];
      Some(line[..n])
    else None
  }

  /** Every line made of a name and " connected " does match, with that
      name: together with the postcondition of `MatchLine`, a line matches
      exactly when it has this shape. */
  lemma MatchLineComplete(id: string, rest: string)
    requires AllIdChars(id)
    ensures MatchLine(id + Marker + rest) == Some(id)
  {
    var line := id + Marker + rest;
    IdLengthOf(id, Marker + rest);
    assert line == id + (Marker + rest);
    assert line[|id|..|id| + |Marker|] == Marker;
    assert line[..|id|] == id;
  }

  lemma {:induction false} IdLengthOf(id: string, rest: string)
    requires AllIdChars(id) && (rest == [] || !IsIdChar(rest[0]))
    ensures IdLength(id + rest) == |id|
    decreases |id|
  {
    if |id| > 0 {
      assert (id + rest)[1..] == id[1..] + rest;
      IdLengthOf(id[1..], rest);
    } else {
      assert id + rest == rest;
    }
  }

  /** `re.findall` over the lines, in order. */
  function MatchAll(lines: seq<string>): (r: seq<string>)
    ensures |r| <= |lines|
    ensures forall i | 0 <= i < |r| :: AllIdChars(r[i])
  {
    if |lines| == 0 then []
    else
      var rest := MatchAll(lines[1..]);
      match MatchLine(lines[0])
      case None => rest
      case Some(id) => [id] + rest
  }

  lemma {:induction false} MatchAllConcat(a: seq<string>, b: seq<string>)
    ensures MatchAll(a + b) == MatchAll(a) + MatchAll(b)
    decreases |a|
  {
    if |a| > 0 {
      assert (a + b)[0] == a[0] && (a + b)[1..] == a[1..] + b;
      MatchAllConcat(a[1..], b);
    } else {
      assert a + b == b;
    }
  }

  /** No matching line, no match. */
  lemma {:induction false} MatchAllNone(lines: seq<string>)
    requires forall l | l in lines :: MatchLine(l).None?
    ensures MatchAll(lines) == []
    decreases |lines|
  {
    if |lines| > 0 {
      assert lines[0] in lines;
      assert forall l | l in lines[1..] :: l in lines;
      MatchAllNone(lines[1..]);
    }
  }

  /** `get_connected_outputs` on the text of `xrandr --query`: the names
      of the connected outputs, in the order of their lines. */
  function ConnectedOutputs(text: string): (r: seq<string>)
    ensures forall i | 0 <= i < |r| :: AllIdChars(r[i]) && ' ' !in r[i] && '\n' !in r[i]
  {
    MatchAll(Split(text, '\n'))
  }

  /** The outputs of a text are those of its lines, line by line. */
  lemma ConnectedOutputsConcat(a: string, b: string)
    ensures ConnectedOutputs(a + "\n" + b) == ConnectedOutputs(a) + ConnectedOutputs(b)
  {
    SplitConcat(a, b, '\n');
    MatchAllConcat(Split(a, '\n'), Split(b, '\n'));
  }

  /** A query in which no line matches yields the empty list. */
  lemma ConnectedOutputsNone(text: string)
    requires forall l | l in Split(text, '\n') :: MatchLine(l).None?
    ensures ConnectedOutputs(text) == []
  {
    MatchAllNone(Split(text, '\n'));
  }

  /** A single line yields its name exactly when it matches. */
  lemma ConnectedOutputsLine(line: string)
    requires '\n' !in line
    ensures ConnectedOutputs(line) == if MatchLine(line).Some? then [MatchLine(line).value] else []
  {
  }

  /** A line whose name is followed by anything other than " connected "
      (here " disconnected") does not match. */
  lemma DisconnectedLine(id: string)
    requires AllIdChars(id)
    ensures MatchLine(id + " disconnected").None?
  {
    var line := id + " disconnected";
    IdLengthOf(id, " disconnected");
    if |id| + |Marker| <= |line| {
      assert line[|id| + 1] == 'd';
    }
  }

  /** The trailing space of the expression is required: a line that ends
      right after "connected" does not match. */
  lemma ConnectedAtEndOfLine(id: string)
    requires AllIdChars(id)
    ensures MatchLine(id + " connected").None?
  {
    IdLengthOf(id, " connected");
  }

  /** The name group may be empty: a line that starts with " connected "
      yields the empty name. */
  lemma EmptyName(rest: string)
    ensures MatchLine(Marker + rest) == Some([])
  {
    MatchLineComplete([], rest);
    assert [] + Marker + rest == Marker + rest;
  }

  /** A query with one connected and one disconnected output. */
  lemma QueryExample()
    ensures ConnectedOutputs(("VGA-1" + Marker + "1920x1080") + "\n" + ("HDMI-1" + " disconnected"))
         == ["VGA-1"]
  {
    var first, second := "VGA-1" + Marker + "1920x1080", "HDMI-1" + " disconnected";
    ConnectedOutputsConcat(first, second);
    VgaConnected();
    HdmiDisconnected();
  }

  lemma VgaConnected()
    ensures ConnectedOutputs("VGA-1" + Marker + "1920x1080") == ["VGA-1"]
  {
    assert AllIdChars("VGA-1");
    MatchLineComplete("VGA-1", "1920x1080");
    assert '\n' !in "VGA-1" + Marker + "1920x1080";
    ConnectedOutputsLine("VGA-1" + Marker + "1920x1080");
  }

  lemma HdmiDisconnected()
    ensures ConnectedOutputs("HDMI-1" + " disconnected") == []
  {
    assert AllIdChars("HDMI-1");
    DisconnectedLine("HDMI-1");
    assert '\n' !in "HDMI-1" + " disconnected";
    ConnectedOutputsLine("HDMI-1" + " disconnected");
  }
}
