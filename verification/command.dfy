/** The `s/pattern/replacement/flags` command of MexEdit's command mode. */
module Command {
  import opened Wrappers

  /** A parsed substitution.  `flags` is None when the command has no third
      `/` (the source's null flags pointer). */
  datatype Substitution = Substitution(pattern: string, replacement: string, flags: Option<string>)
  {
    /** Replace every match rather than the current one: a `g` among the flags. */
    predicate All()
    {
      flags.Some? && 'g' in flags.value
    }
  }

  /** The text of a substitution command. */
  function Format(sub: Substitution): string
  {
    "s/" + (sub.pattern + ("/" + (sub.replacement + FlagsText(sub.flags))))
  }

  /** The flags part of a command: a `/` and the flags, or nothing. */
  function FlagsText(flags: Option<string>): string
  {
    if flags.Some? then "/" + flags.value else ""
  }

  /** strchr followed by cutting the string at the found character: the text
      before the first `c` and the text after it. */
  function SplitAtFirst(s: string, c: char): (r: Option<(string, string)>)
    ensures r.None? <==> c !in s
    ensures r.Some? ==> c !in r.value.0 && s == r.value.0 + ([c] + r.value.1)
  {
    if s == [] then None
    else if s[0] == c then Some(([], s[1..]))
    else match SplitAtFirst(s[1..], c)
      case None => None
      case Some(p) => Some(([s[0]] + p.0, p.1))
  }

  /** The cut is unique: a string of the form a + [c] + b with no `c` in a is
      cut at exactly that `c`. */
  lemma {:induction false} SplitAtFirstUnique(a: string, c: char, b: string)
    requires c !in a
    ensures SplitAtFirst(a + ([c] + b), c) == Some((a, b))
  {
    var s := a + ([c] + b);
    if a == [] {
      assert s[0] == c && s[1..] == b;
    } else {
      assert s[0] == a[0] != c;
      assert s[1..] == a[1..] + ([c] + b);
      SplitAtFirstUnique(a[1..], c, b);
      assert [a[0]] + a[1..] == a;
    }
  }

  /** The parser: text that does not start with `s/`, or has no second `/`,
      is not a substitution, and the command then does nothing.  A parsed
      command is exactly the rendering of its parts. */
  function ParseSubstitution(command: string): (r: Option<Substitution>)
    ensures r.Some? <==> |command| >= 2 && command[..2] == "s/" && '/' in command[2..]
    ensures r.Some? ==>
              && '/' !in r.value.pattern
              && '/' !in r.value.replacement
              && Format(r.value) == command
  {
    if |command| < 2 || command[..2] != "s/" then None
    else
      var rest := command[2..];
      assert command == "s/" + rest;
      match SplitAtFirst(rest, '/')
      case None => None
      case Some(p) =>
        match SplitAtFirst(p.1, '/')
        case None =>
          var sub := Substitution(p.0, p.1, None);
          assert Format(sub) == "s/" + (p.0 + ("/" + p.1));
          Some(sub)
        case Some(q) =>
          var sub := Substitution(p.0, q.0, Some(q.1));
          assert Format(sub) == "s/" + (p.0 + ("/" + (q.0 + ("/" + q.1))));
          Some(sub)
  }

  /** The C string getnstr leaves in the command buffer: the text before the
      first NUL byte, which is all strncmp and strchr ever look at. */
  function CommandText(buffer: string): (r: string)
    ensures '\0' !in r
    ensures |r| <= |buffer| && r == buffer[..|r|]
    ensures |r| < |buffer| ==> buffer[|r|] == '\0'
  {
    if buffer == [] || buffer[0] == '\0' then [] else [buffer[0]] + CommandText(buffer[1..])
  }

  /** startCommandMode's parse of the buffer: only the text before the first
      NUL counts, and a buffer without a NUL is parsed as it stands. */
  function ParseCommand(buffer: string): (r: Option<Substitution>)
    ensures '\0' !in buffer ==> r == ParseSubstitution(buffer)
    ensures r.Some? ==> '\0' !in Format(r.value) && |Format(r.value)| <= |buffer| && Format(r.value) == buffer[..|Format(r.value)|]
  {
    if '\0' in buffer then ParseSubstitution(CommandText(buffer))
    else
      CommandTextWhole(buffer);
      ParseSubstitution(buffer)
  }

  /** A buffer without a NUL is its own C string. */
  lemma {:induction false} CommandTextWhole(buffer: string)
    requires '\0' !in buffer
    ensures CommandText(buffer) == buffer
  {
    if buffer != [] {
      assert buffer[0] in buffer;
      assert forall c :: c in buffer[1..] ==> c in buffer;
      CommandTextWhole(buffer[1..]);
    }
  }

  /** With its first NUL at position k, the buffer's C string is its first
      k characters. */
  lemma {:induction false} CommandTextAt(buffer: string, k: nat)
    requires k < |buffer| && buffer[k] == '\0' && '\0' !in buffer[..k]
    ensures CommandText(buffer) == buffer[..k]
  {
    if k > 0 {
      assert buffer[0] == buffer[..k][0];
      assert buffer[1..][..k - 1] == buffer[..k][1..];
      CommandTextAt(buffer[1..], k - 1);
    }
  }

  /** A NUL typed after the pattern ends the command there: "s/a", NUL, "/b"
      is not a substitution, although the whole buffer would parse as one. */
  lemma ParseCommandStopsAtNul(buffer: string)
    requires buffer == "s/a\0/b"
    ensures ParseSubstitution(buffer).Some?
    ensures ParseCommand(buffer) == None
  {
    assert buffer[2..][2] == '/';
    assert buffer[..3] == "s/a";
    CommandTextAt(buffer, 3);
    assert CommandText(buffer)[2..] == "a";
  }

  /** Parsing the rendering of a substitution gives it back whenever neither
      the pattern nor the replacement contains `/`. */
  lemma ParseFormat(sub: Substitution)
    requires '/' !in sub.pattern && '/' !in sub.replacement
    ensures ParseSubstitution(Format(sub)) == Some(sub)
  {
    var command := Format(sub);
    var rest := sub.pattern + ("/" + (sub.replacement + FlagsText(sub.flags)));
    assert command[..2] == "s/" && command[2..] == rest;
    SplitAtFirstUnique(sub.pattern, '/', sub.replacement + FlagsText(sub.flags));
    if sub.flags.Some? {
      SplitAtFirstUnique(sub.replacement, '/', sub.flags.value);
    } else {
      assert sub.replacement + FlagsText(sub.flags) == sub.replacement;
    }
  }

  /** A `g` anywhere in the flags selects replace-all; without a third `/`
      the current match alone is replaced. */
  lemma ReplaceAllFlag(command: string)
    requires ParseSubstitution(command).Some?
    ensures ParseSubstitution(command).value.All() <==>
              var sub := ParseSubstitution(command).value;
              var k := 3 + |sub.pattern| + |sub.replacement|;
              k < |command| && 'g' in command[k + 1..]
  {
    var sub := ParseSubstitution(command).value;
    var k := 3 + |sub.pattern| + |sub.replacement|;
    FormatLayout(sub);
    if sub.flags.Some? {
      assert command[k + 1..] == FlagsText(sub.flags)[1..];
    }
  }

  /** The flags part of a rendered command starts after "s/", the pattern, a
      `/` and the replacement. */
  lemma FormatLayout(sub: Substitution)
    ensures var k := 3 + |sub.pattern| + |sub.replacement|;
            |Format(sub)| == k + |FlagsText(sub.flags)| && Format(sub)[k..] == FlagsText(sub.flags)
  {
    var head := "s/" + sub.pattern + "/" + sub.replacement;
    assert Format(sub) == head + FlagsText(sub.flags);
  }
}
