/**
 * The rotator's wire format, `<AZ{az}><EL{el}>` followed by a newline,
 * where both fields are base-10 integers. Serialize writes a command,
 * Parse reads one back, and FormatCommand is the text `send_to_arduino`
 * builds from a pair of real angles.
 */
module RotatorCommand {
  import opened Wrappers
  import opened Decimal
  import opened Rounding

  /** The two whole-degree fields of one command. */
  datatype Command = Command(az: int, el: int)

  /** One bracketed field, `<` tag value `>`, as `send_to_arduino` builds it. */
  function Field(tag: string, v: int): (s: string)
  {
    "<" + (tag + IntToDecimal(v)) + ">"
  }

  /** The full command text: the azimuth field, the elevation field, a newline. */
  function Serialize(c: Command): (s: string)
  {
    Field("AZ", c.az) + Field("EL", c.el) + "\n"
  }

  /** Every serialized command opens with `<AZ`, closes with `>` and a newline, and is plain ASCII. */
  lemma SerializeShape(c: Command)
    ensures var s := Serialize(c);
      |s| >= 9 && s[..3] == "<AZ" && s[|s| - 2..] == ">\n" &&
      forall k :: 0 <= k < |s| ==> s[k] as int < 128
  {
    var a, e := IntToDecimal(c.az), IntToDecimal(c.el);
    var s := Serialize(c);
    assert s == "<AZ" + a + "><EL" + e + ">\n";
    forall k | 0 <= k < |s|
      ensures s[k] as int < 128
    {
      if 3 <= k < 3 + |a| {
        assert s[k] == a[k - 3];
      } else if 3 + |a| + 4 <= k < 3 + |a| + 4 + |e| {
        assert s[k] == e[k - 3 - |a| - 4];
      }
    }
  }

  /** Each field is rounded on its own, half to even, and never clamped. */
  function FormatCommand(azimuth: real, elevation: real): (cmd: string)
    ensures |cmd| >= 9 && cmd[..3] == "<AZ" && cmd[|cmd| - 2..] == ">\n"
    ensures forall k :: 0 <= k < |cmd| ==> cmd[k] as int < 128
    ensures Parse(cmd) == Some(Command(RoundHalfEven(azimuth), RoundHalfEven(elevation)))
  {
    var c := Command(RoundHalfEven(azimuth), RoundHalfEven(elevation));
    SerializeShape(c);
    ParseSerialize(c);
    Serialize(c)
  }

  /** Index of the first `c` in `s`, or `|s|` when there is none. */
  function Find(s: string, c: char): (i: nat)
    ensures i <= |s|
    ensures forall k :: 0 <= k < i ==> s[k] != c
    ensures i < |s| ==> s[i] == c
  {
    if s == [] then 0 else if s[0] == c then 0 else 1 + Find(s[1..], c)
  }

  /** Reads `<` tag, an integer and `>`; returns the integer and what follows. */
  function ParseField(s: string, tag: string): (r: Option<(int, string)>)
    ensures r.Some? ==> |r.value.1| < |s|
  {
    var head := "<" + tag;
    if |s| < |head| || s[..|head|] != head then None
    else
      var body := s[|head|..];
      var i := Find(body, '>');
      if i == |body| then None
      else
        match ParseInt(body[..i])
        case Some(v) => Some((v, body[i + 1..]))
        case None => None
  }

  /** Reads one whole command; any other text is refused. */
  function Parse(s: string): (r: Option<Command>)
  {
    match ParseField(s, "AZ")
    case None => None
    case Some((az, rest)) =>
      match ParseField(rest, "EL")
      case None => None
      case Some((el, tail)) => if tail == "\n" then Some(Command(az, el)) else None
  }

  lemma FieldRoundTrip(tag: string, v: int, rest: string)
    ensures ParseField(Field(tag, v) + rest, tag) == Some((v, rest))
  {
    var d := IntToDecimal(v);
    var s := Field(tag, v) + rest;
    var head := "<" + tag;
    assert s == head + (d + ">" + rest);
    assert s[..|head|] == head;
    var body := s[|head|..];
    assert body == d + ">" + rest;
    assert body[|d|] == '>';
    assert forall k :: 0 <= k < |d| ==> body[k] == d[k];
    assert Find(body, '>') == |d|;
    assert body[..|d|] == d;
    assert body[|d| + 1..] == rest;
    IntRoundTrip(v);
  }

  lemma FieldParsed(s: string, tag: string, v: int, rest: string)
    requires ParseField(s, tag) == Some((v, rest))
    ensures s == Field(tag, v) + rest
  {
    var head := "<" + tag;
    var body := s[|head|..];
    var i := Find(body, '>');
    ParsedIsPrinted(body[..i], v);
    assert body == body[..i] + ">" + rest;
    assert s == head + body;
  }

  /** Parsing a serialized command recovers both fields exactly. */
  lemma ParseSerialize(c: Command)
    ensures Parse(Serialize(c)) == Some(c)
  {
    var tail := Field("EL", c.el) + "\n";
    assert Serialize(c) == Field("AZ", c.az) + tail;
    FieldRoundTrip("AZ", c.az, tail);
    FieldRoundTrip("EL", c.el, "\n");
  }

  /** Parse accepts nothing but serialized commands. */
  lemma SerializeParse(s: string, c: Command)
    requires Parse(s) == Some(c)
    ensures Serialize(c) == s
  {
    var Some((az, rest)) := ParseField(s, "AZ");
    var Some((el, tail)) := ParseField(rest, "EL");
    FieldParsed(s, "AZ", az, rest);
    FieldParsed(rest, "EL", el, tail);
    assert Serialize(c) == Field("AZ", az) + (Field("EL", el) + "\n");
  }

  /** Two commands are the same text exactly when they carry the same fields. */
  lemma SerializeInjective(c: Command, d: Command)
    ensures Serialize(c) == Serialize(d) <==> c == d
  {
    if Serialize(c) == Serialize(d) {
      ParseSerialize(c);
      ParseSerialize(d);
    }
  }

  /** A non-negative elevation is never written with a minus sign. */
  lemma FormatNonNegativeElevation(azimuth: real, elevation: real)
    requires elevation >= 0.0
    ensures Parse(FormatCommand(azimuth, elevation)).value.el >= 0
  {
    RoundHalfEvenNonNegative(elevation);
  }

  /** The command for two angles whose rounded values are already known. */
  lemma FormatOfRounded(azimuth: real, elevation: real, az: int, el: int)
    requires RoundHalfEven(azimuth) == az && RoundHalfEven(elevation) == el
    ensures FormatCommand(azimuth, elevation) == Serialize(Command(az, el))
  {
  }

  /** The text of three concrete commands, field by field. */
  lemma SerializeExamples()
    ensures Serialize(Command(0, 45)) == "<AZ0><EL45>\n"
    ensures Serialize(Command(360, 10)) == "<AZ360><EL10>\n"
    ensures Serialize(Command(118, 33)) == "<AZ118><EL33>\n"
  {
    DecimalExamples();
    assert Serialize(Command(0, 45)) == "<AZ0><EL45>\n" by {
      assert Field("AZ", 0) == "<AZ0>" && Field("EL", 45) == "<EL45>";
    }
    assert Serialize(Command(360, 10)) == "<AZ360><EL10>\n" by {
      assert Field("AZ", 360) == "<AZ360>" && Field("EL", 10) == "<EL10>";
    }
    assert Serialize(Command(118, 33)) == "<AZ118><EL33>\n" by {
      assert Field("AZ", 118) == "<AZ118>" && Field("EL", 33) == "<EL33>";
    }
  }

  /**
   * Due north at 45 degrees gives AZ0, not AZ360; 359.6 rounds up to 360
   * with no wrap to 0 while 10.4 rounds down; each field is rounded on its own.
   */
  lemma FormatExamples()
    ensures FormatCommand(0.0, 45.0) == "<AZ0><EL45>\n"
    ensures FormatCommand(359.6, 10.4) == "<AZ360><EL10>\n"
    ensures FormatCommand(118.4, 32.7) == "<AZ118><EL33>\n"
  {
    RoundingExamples();
    FormatOfRounded(0.0, 45.0, 0, 45);
    FormatOfRounded(359.6, 10.4, 360, 10);
    FormatOfRounded(118.4, 32.7, 118, 33);
    SerializeExamples();
  }
}
