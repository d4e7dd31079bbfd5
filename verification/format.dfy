/** The authorized_keys line written for one resolved row (src/serverauth.rs
    and src/generate.rs): the optional key options in OpenSSH syntax (the
    AUTHORIZED_KEYS FILE FORMAT section of sshd(8)), the key, the owner's
    email, and the key comment in parentheses. */
module Format {
  import opened Wrappers
  import Text
  import opened Resolution

  /** `from="<sshfrom>"`, then `,` if another option follows, else a space. */
  function FromPart(r: AuthRow): string
  {
    if r.sshfrom.None? then ""
    else "from=\"" + r.sshfrom.value + "\"" + (if r.sshcommand.Some? || r.sshoption.Some? then "," else " ")
  }

  /** `command="<sshcommand>"`, then `,` if sshoption follows, else a space. */
  function CommandPart(r: AuthRow): string
  {
    if r.sshcommand.None? then ""
    else "command=\"" + r.sshcommand.value + "\"" + (if r.sshoption.Some? then "," else " ")
  }

  /** The sshoption text, always followed by a space. */
  function OptionPart(r: AuthRow): string
  {
    if r.sshoption.None? then "" else r.sshoption.value + " "
  }

  function CommentPart(r: AuthRow): string
  {
    if r.comment.None? then "" else " (" + r.comment.value + ")"
  }

  /** The line as the generator builds it, piece by piece. */
  function FormatLine(r: AuthRow): string
  {
    FromPart(r) + CommandPart(r) + OptionPart(r) + r.sshkey + " " + r.email + CommentPart(r)
  }

  // ---------------------------------------------------------------------------
  // An independent description: the present options joined by commas
  // ---------------------------------------------------------------------------

  /** The key options that are present, in their fixed order. */
  function Options(r: AuthRow): (opts: seq<string>)
    ensures |opts| <= 3
  {
    (if r.sshfrom.Some? then ["from=\"" + r.sshfrom.value + "\""] else [])
    + (if r.sshcommand.Some? then ["command=\"" + r.sshcommand.value + "\""] else [])
    + (if r.sshoption.Some? then [r.sshoption.value] else [])
  }

  /** The options field of sshd(8): the comma-joined options and one space,
      or nothing at all. */
  function OptionsField(r: AuthRow): string
  {
    var opts := Options(r);
    if |opts| == 0 then "" else Text.Join(opts, ',') + " "
  }

  lemma JoinTwo(a: string, b: string)
    ensures Text.Join([a, b], ',') == a + "," + b
  {
    assert [a, b][1..] == [b];
  }

  lemma JoinThree(a: string, b: string, c: string)
    ensures Text.Join([a, b, c], ',') == a + "," + b + "," + c
  {
    assert [a, b, c][1..] == [b, c];
    JoinTwo(b, c);
  }

  /** The generator's piecewise construction is exactly "options joined by
      commas, a space, the key, a space, the email, the comment". */
  lemma FormatLineIsOptionsField(r: AuthRow)
    ensures FormatLine(r) == OptionsField(r) + r.sshkey + " " + r.email + CommentPart(r)
  {
    var f, c, o := r.sshfrom.Some?, r.sshcommand.Some?, r.sshoption.Some?;
    var prefix := FromPart(r) + CommandPart(r) + OptionPart(r);
    var opts := Options(r);
    if f && c && o {
      assert opts == [opts[0], opts[1], opts[2]];
      JoinThree(opts[0], opts[1], opts[2]);
    } else if f && c {
      assert opts == [opts[0], opts[1]];
      JoinTwo(opts[0], opts[1]);
    } else if f && o {
      assert opts == [opts[0], opts[1]];
      JoinTwo(opts[0], opts[1]);
    } else if c && o {
      assert opts == [opts[0], opts[1]];
      JoinTwo(opts[0], opts[1]);
    }
    assert prefix == OptionsField(r);
    assert FormatLine(r) == prefix + r.sshkey + " " + r.email + CommentPart(r);
  }

  /** Without options and comment the line is exactly the key and the email. */
  lemma PlainLine(r: AuthRow)
    requires r.sshfrom.None? && r.sshcommand.None? && r.sshoption.None? && r.comment.None?
    ensures FormatLine(r) == r.sshkey + " " + r.email
  {
  }

  /** `from="..."` is followed by a comma exactly when another option is
      present. */
  lemma FromSeparator(r: AuthRow)
    requires r.sshfrom.Some?
    ensures var n := |"from=\"" + r.sshfrom.value + "\""|;
      FormatLine(r)[n] == (if r.sshcommand.Some? || r.sshoption.Some? then ',' else ' ')
  {
  }

  /** A present comment closes the line in parentheses; otherwise the line
      ends with a space and the email. */
  lemma LineEnding(r: AuthRow)
    ensures r.comment.Some? ==> Text.EndsWithChar(FormatLine(r), ')')
    ensures r.comment.None? ==> |r.email| > 0 ==> Text.EndsWithChar(FormatLine(r), r.email[|r.email| - 1])
    ensures r.comment.None? ==>
      var line, tail := FormatLine(r), " " + r.email;
      |line| >= |tail| && line[|line| - |tail|..] == tail
    ensures r.comment.Some? ==>
      var line, tail := FormatLine(r), " " + r.email + " (" + r.comment.value + ")";
      |line| >= |tail| && line[|line| - |tail|..] == tail
  {
    var head := FromPart(r) + CommandPart(r) + OptionPart(r) + r.sshkey;
    var tail := " " + r.email + CommentPart(r);
    assert FormatLine(r) == head + tail;
    assert (head + tail)[|head|..] == tail;
  }

  /** With every option present the options are comma-joined in the order
      from, command, option. */
  lemma AllOptionsLine(r: AuthRow)
    requires r.sshfrom == Some("10.0.0.0/8") && r.sshcommand == Some("/bin/true")
    requires r.sshoption == Some("no-pty") && r.comment == Some("laptop key")
    ensures FormatLine(r) == "from=\"10.0.0.0/8\"," + "command=\"/bin/true\"," + "no-pty " + r.sshkey + " " + r.email + " (laptop key)"
  {
    assert FromPart(r) == "from=\"10.0.0.0/8\",";
    assert CommandPart(r) == "command=\"/bin/true\",";
    assert OptionPart(r) == "no-pty ";
    assert CommentPart(r) == " (laptop key)";
  }
}
