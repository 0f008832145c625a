/** The chat-macro string built from an event's tips in `generate_menus`:
    one `macro <identifier> say <content>` statement per tip, the statements
    separated by `$$`. */
module TipMacros {
  import opened Outcomes
  import opened Events
  import opened Text

  const Separator: string := "$$"

  /** The identifier of a tip's macro: its name with every whitespace
      character deleted. */
  function Identifier(t: Tip): (id: string)
    ensures NoWhitespace(id)
    ensures forall c | c in id :: c in t.name
  {
    RemoveWhitespace(t.name)
  }

  /** The statement for one tip, `format!("macro {} say {}", ..)` without
      the trailing separator. */
  function Fragment(t: Tip): string {
    "macro " + Identifier(t) + " say " + t.content
  }

  /** The statements of all tips, in order. */
  function Fragments(tips: seq<Tip>): (fs: seq<string>)
    ensures |fs| == |tips|
  {
    seq(|tips|, i requires 0 <= i < |tips| => Fragment(tips[i]))
  }

  /** What the loop over the tips has pushed after the first `|tips|` tips:
      each statement followed by the separator. */
  function MacroBuffer(tips: seq<Tip>): (buf: string)
    ensures tips != [] ==> |buf| >= 2 && buf[|buf| - 2..] == Separator
  {
    if tips == [] then ""
    else MacroBuffer(tips[..|tips| - 1]) + Fragment(tips[|tips| - 1]) + Separator
  }

  // Reference definition: joining with a separator between neighbours only.

  /** `parts[0] + sep + parts[1] + sep + ... + parts[n-1]`. */
  function Join(parts: seq<string>, sep: string): string {
    if |parts| == 0 then ""
    else if |parts| == 1 then parts[0]
    else parts[0] + sep + Join(parts[1..], sep)
  }

  lemma {:induction false} JoinSnoc(parts: seq<string>, x: string, sep: string)
    requires parts != []
    ensures Join(parts + [x], sep) == Join(parts, sep) + sep + x
  {
    if |parts| > 1 {
      assert (parts + [x])[1..] == parts[1..] + [x];
      JoinSnoc(parts[1..], x, sep);
    } else {
      assert parts + [x] == [parts[0], x];
    }
  }

  /** After the loop the buffer is the joined statements plus one trailing
      separator. */
  lemma {:induction false} MacroBufferIsJoin(tips: seq<Tip>)
    requires tips != []
    ensures MacroBuffer(tips) == Join(Fragments(tips), Separator) + Separator
  {
    var init, last := tips[..|tips| - 1], tips[|tips| - 1];
    var f := Fragment(last);
    assert MacroBuffer(tips) == MacroBuffer(init) + f + Separator;
    if init == [] {
      assert Fragments(tips) == [f];
    } else {
      var fs := Fragments(init);
      MacroBufferIsJoin(init);
      assert Fragments(tips) == fs + [f];
      JoinSnoc(fs, f, Separator);
      assert MacroBuffer(tips) == (Join(fs, Separator) + Separator + f) + Separator;
    }
  }

  /** The intended truncation: drop the trailing `$$` (two characters, and
      also two bytes since `$` is ASCII). */
  function DropTrailingSeparator(buf: string): (r: string)
    requires |buf| >= 2 && buf[|buf| - 2..] == Separator
    ensures r + Separator == buf
  {
    assert buf == buf[..|buf| - 2] + buf[|buf| - 2..];
    buf[..|buf| - 2]
  }

  /** The value bound as `tip_macros` for a non-empty tip list, with the
      intended truncation: the statements joined by `$$`, with no separator
      at the end. */
  function TipMacroList(tips: seq<Tip>): (r: string)
    requires tips != []
    ensures r == Join(Fragments(tips), Separator)
  {
    MacroBufferIsJoin(tips);
    DropTrailingSeparator(MacroBuffer(tips))
  }

  /** The truncation exactly as written at main.rs line 160:
      `truncate(chars().count() - 2)`, a character count used as a byte
      index. It drops exactly the trailing `$$` if and only if the buffer is
      ASCII; on any other buffer it panics or cuts too much. */
  function TruncateAsWritten(buf: string): (r: Result<string>)
    requires |buf| >= 2 && buf[|buf| - 2..] == Separator
    ensures IsAscii(buf) <==> r == Ok(DropTrailingSeparator(buf))
  {
    ByteLenAscii(buf);
    SeparatorBytes(DropTrailingSeparator(buf), buf);
    TruncateDropsSuffix(buf, 2);
    TruncateBytes(buf, |buf| - 2)
  }

  /** The example of a tip named with a space. */
  lemma CadaverCounterFragment()
    ensures Fragment(Tip("Cadaver Counter", "Defeat the leader"))
      == "macro CadaverCounter say Defeat the leader"
  {
    var t := Tip("Cadaver Counter", "Defeat the leader");
    CadaverCounterIdentifier();
    assert Identifier(t) == "CadaverCounter";
    CadaverCounterText();
  }

  lemma CadaverCounterText()
    ensures "macro " + "CadaverCounter" + " say " + "Defeat the leader"
      == "macro CadaverCounter say Defeat the leader"
  {
  }

  lemma CadaverCounterIdentifier()
    ensures RemoveWhitespace("Cadaver Counter") == "CadaverCounter"
  {
    CadaverCounterWords();
    SpaceRemoved("Cadaver", ' ', "Counter");
  }

  lemma CadaverCounterWords()
    ensures "Cadaver Counter" == "Cadaver" + [' '] + "Counter"
    ensures "Cadaver" + "Counter" == "CadaverCounter"
    ensures NoWhitespace("Cadaver") && NoWhitespace("Counter")
  {
  }

  /** A single whitespace character between two clean words disappears. */
  lemma SpaceRemoved(left: string, space: char, right: string)
    requires NoWhitespace(left) && NoWhitespace(right) && IsWhitespace(space)
    ensures RemoveWhitespace(left + [space] + right) == left + right
  {
    var tail := [space] + right;
    assert tail[0] == space && tail[1..] == right;
    assert RemoveWhitespace(tail) == RemoveWhitespace(right);
    RemoveWhitespaceConcat(left, tail);
    RemoveWhitespaceKeepsClean(left);
    RemoveWhitespaceKeepsClean(right);
    assert left + [space] + right == left + tail;
  }

  /** Two tips: one separator between their statements and none at the end. */
  lemma TwoTips(first: Tip, second: Tip)
    ensures TipMacroList([first, second]) == Fragment(first) + Separator + Fragment(second)
  {
    var fs := Fragments([first, second]);
    assert fs == [Fragment(first), Fragment(second)];
    assert fs[1..] == [Fragment(second)];
    assert Join(fs, Separator) == fs[0] + Separator + Join(fs[1..], Separator);
  }

  // Two tips whose content is not ASCII show that the truncation as written
  // is wrong: with one two-byte character it cuts inside that character and
  // panics, with two it keeps the separator off but also loses a character.

  /** The macro buffer of a single tip named "A". */
  lemma SingleTipBuffer(content: string)
    ensures Fragment(Tip("A", content)) == "macro A say " + content
    ensures MacroBuffer([Tip("A", content)]) == "macro A say " + content + Separator
  {
    var t := Tip("A", content);
    assert [t][..0] == [];
    assert RemoveWhitespace("A") == "A" by {
      assert "A"[1..] == [];
    }
  }

  /** After an ASCII prefix, the truncation as written cuts the non-ASCII
      rest at its character count minus two, counted in bytes. */
  lemma {:induction false} AsWrittenAfterAsciiPrefix(prefix: string, rest: string)
    requires IsAscii(prefix) && !IsAscii(rest)
    requires |rest| >= 2 && rest[|rest| - 2..] == Separator
    ensures var buf := prefix + rest;
      |buf| >= 2 && buf[|buf| - 2..] == Separator &&
      TruncateAsWritten(buf) ==
        match CutAtByte(rest, |rest| - 2)
        case Ok(x) => Ok(prefix + x)
        case Err(e) => Err(e)
  {
    var buf := prefix + rest;
    assert buf[|buf| - 2..] == rest[|rest| - 2..];
    ByteLenAscii(prefix);
    ByteLenAscii(rest);
    ByteLenConcat(prefix, rest);
    ByteLenAscii(buf);
    CutAfterPrefix(prefix, rest, |rest| - 2);
  }

  lemma AsWrittenPanicsOnNonAscii()
    ensures TruncateAsWritten(MacroBuffer([Tip("A", "\U{E9}")])) == Err(NotCharBoundary)
  {
    var prefix, rest := "macro A say ", "\U{E9}" + Separator;
    SingleTipBuffer("\U{E9}");
    assert MacroBuffer([Tip("A", "\U{E9}")]) == prefix + rest;
    assert rest[0] == '\U{E9}';
    AsWrittenAfterAsciiPrefix(prefix, rest);
  }

  lemma AsWrittenLosesContent()
    ensures var tips := [Tip("A", "\U{E9}\U{E9}")];
      && TruncateAsWritten(MacroBuffer(tips)) == Ok("macro A say \U{E9}")
      && TipMacroList(tips) == "macro A say \U{E9}\U{E9}"
  {
    AsWrittenCutsTwoByteChars();
    SingleTipList("\U{E9}\U{E9}");
  }

  lemma AsWrittenCutsTwoByteChars()
    ensures TruncateAsWritten(MacroBuffer([Tip("A", "\U{E9}\U{E9}")])) == Ok("macro A say \U{E9}")
  {
    var prefix, rest := "macro A say ", "\U{E9}\U{E9}" + Separator;
    SingleTipBuffer("\U{E9}\U{E9}");
    assert MacroBuffer([Tip("A", "\U{E9}\U{E9}")]) == prefix + rest;
    assert rest[0] == '\U{E9}';
    AsWrittenAfterAsciiPrefix(prefix, rest);
    CutFirstChar(rest);
    assert prefix + "\U{E9}" == "macro A say \U{E9}";
  }

  /** With the intended truncation a single tip keeps all of its content. */
  lemma SingleTipList(content: string)
    ensures TipMacroList([Tip("A", content)]) == "macro A say " + content
  {
    SingleTipBuffer(content);
    assert Fragments([Tip("A", content)]) == [Fragment(Tip("A", content))];
  }

  lemma CutFirstChar(rest: string)
    requires rest == "\U{E9}\U{E9}" + Separator
    ensures CutAtByte(rest, 2) == Ok("\U{E9}")
  {
    assert rest[0] == '\U{E9}';
    assert CutAtByte(rest[1..], 0) == Ok([]);
    assert [rest[0]] + [] == "\U{E9}";
  }

  /** Whatever the tips, the intended truncation is a byte truncation that
      `String::truncate` performs without panicking. */
  lemma DropSeparatorIsByteTruncation(buf: string)
    requires |buf| >= 2 && buf[|buf| - 2..] == Separator
    ensures TruncateBytes(buf, ByteLen(buf) - 2) == Ok(DropTrailingSeparator(buf))
  {
    var kept := DropTrailingSeparator(buf);
    SeparatorBytes(kept, buf);
    TruncateDropsSuffix(buf, 2);
  }

  lemma SeparatorBytes(kept: string, buf: string)
    requires buf == kept + Separator
    ensures ByteLen(buf) == ByteLen(kept) + 2
    ensures buf[..|buf| - 2] == kept
  {
    assert ByteLen(Separator) == 2 by {
      assert Separator[1..] == "$";
      assert Separator[1..][1..] == [];
    }
    ByteLenConcat(kept, Separator);
  }

  /** The separator count: when no tip name or content contains `$`, the
      joined list holds exactly 2 * (n - 1) dollar signs, i.e. n - 1
      separators. */
  function Count(c: char, s: string): nat {
    if s == [] then 0 else (if s[0] == c then 1 else 0) + Count(c, s[1..])
  }

  lemma {:induction false} CountConcat(c: char, a: string, b: string)
    ensures Count(c, a + b) == Count(c, a) + Count(c, b)
  {
    if a == [] {
      assert a + b == b;
    } else {
      assert (a + b)[1..] == a[1..] + b;
      CountConcat(c, a[1..], b);
    }
  }

  lemma {:induction false} CountAbsent(c: char, s: string)
    requires c !in s
    ensures Count(c, s) == 0
  {
    if s != [] {
      CountAbsent(c, s[1..]);
    }
  }

  predicate DollarFree(t: Tip) {
    '$' !in t.name && '$' !in t.content
  }

  lemma FragmentDollarFree(t: Tip)
    requires DollarFree(t)
    ensures Count('$', Fragment(t)) == 0
  {
    CountAbsent('$', Fragment(t));
  }

  lemma {:induction false} SeparatorCount(tips: seq<Tip>)
    requires tips != []
    requires forall i | 0 <= i < |tips| :: DollarFree(tips[i])
    ensures Count('$', TipMacroList(tips)) == 2 * (|tips| - 1)
  {
    forall i | 0 <= i < |tips| ensures Count('$', Fragments(tips)[i]) == 0 {
      FragmentDollarFree(tips[i]);
    }
    JoinSeparatorCount(Fragments(tips));
  }

  lemma {:induction false} JoinSeparatorCount(parts: seq<string>)
    requires parts != []
    requires forall i | 0 <= i < |parts| :: Count('$', parts[i]) == 0
    ensures Count('$', Join(parts, Separator)) == 2 * (|parts| - 1)
  {
    if |parts| > 1 {
      JoinSeparatorCount(parts[1..]);
      CountConcat('$', parts[0] + Separator, Join(parts[1..], Separator));
      CountConcat('$', parts[0], Separator);
    }
  }
}
