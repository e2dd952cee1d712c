/**
 * The coloured console logging of `src/clilogger.py` (copied into the newest
 * bundle): SGR escape sequences of ECMA-48 section 8.3.117, the 24-bit
 * colour form `38;2;r;g;b` of ISO/IEC 8613-6, a level-to-colour table, and a
 * formatter that rewrites its stored format string on every record, so the
 * colouring piles up from one record to the next.
 */
module CliLogger {
  import opened Results
  import opened Strings

  /** The escape character that opens a control sequence. */
  const Esc: char := '\U{1B}'

  /** `ESC [ params m`: Select Graphic Rendition. */
  function Sgr(params: string): string
  {
    [Esc, '['] + params + "m"
  }

  /** A well-formed SGR sequence: escape, `[`, parameters made of digits and `;`, then `m`. */
  predicate IsSgr(s: string)
  {
    |s| >= 3 && s[0] == Esc && s[1] == '[' && s[|s| - 1] == 'm' &&
    forall i :: 2 <= i < |s| - 1 ==> ('0' <= s[i] <= '9') || s[i] == ';'
  }

  // The colours of `Colors`.
  const Black := Sgr("30")
  const Red := Sgr("31")
  const Green := Sgr("32")
  const Yellow := Sgr("33")
  const Blue := Sgr("34")
  const Magenta := Sgr("35")
  const Cyan := Sgr("36")
  const White := Sgr("37")
  const ColorDefault := Sgr("39")
  const BgBlack := Sgr("40")
  const BgRed := Sgr("41")
  const BgGreen := Sgr("42")
  const BgYellow := Sgr("43")
  const BgBlue := Sgr("44")
  const BgMagenta := Sgr("45")
  const BgCyan := Sgr("46")
  const BgWhite := Sgr("47")
  const BgDefault := Sgr("49")
  const Bold := Sgr("1")
  const Underline := Sgr("4")
  const Invisible := Sgr("08")
  const Reverse := Sgr("07")
  const End := Sgr("0")

  /** What follows the kind of a 24-bit colour: `;2;r;g;b`. */
  function RgbTail(r: int, g: int, b: int): string
  {
    ";2;" + IntToString(r) + ";" + IntToString(g) + ";" + IntToString(b)
  }

  /** `from_rgb(r, g, b)`: a 24-bit foreground colour, `ESC[38;2;r;g;bm`. */
  function FromRgb(r: int, g: int, b: int): (s: string)
    ensures s == Sgr("38" + RgbTail(r, g, b))
    ensures 0 <= r && 0 <= g && 0 <= b ==> IsSgr(s)
  {
    RgbWellFormed("38", r, g, b);
    Sgr("38" + RgbTail(r, g, b))
  }

  /** `bg_from_rgb(r, g, b)`: the same colour as a background, `ESC[48;2;r;g;bm`. */
  function BgFromRgb(r: int, g: int, b: int): (s: string)
    ensures s == Sgr("48" + RgbTail(r, g, b))
    ensures 0 <= r && 0 <= g && 0 <= b ==> IsSgr(s)
  {
    RgbWellFormed("48", r, g, b);
    Sgr("48" + RgbTail(r, g, b))
  }

  /** Only digits and `;`: the characters SGR parameters are written with. */
  predicate ParamChars(s: string)
  {
    forall i :: 0 <= i < |s| ==> ('0' <= s[i] <= '9') || s[i] == ';'
  }

  lemma ParamConcat(a: string, b: string)
    requires ParamChars(a) && ParamChars(b)
    ensures ParamChars(a + b)
  {
    forall i | 0 <= i < |a + b| ensures ('0' <= (a + b)[i] <= '9') || (a + b)[i] == ';' {
      if i < |a| { assert (a + b)[i] == a[i]; } else { assert (a + b)[i] == b[i - |a|]; }
    }
  }

  /** Parameters of digits and `;` make a well-formed SGR sequence. */
  lemma SgrWellFormed(p: string)
    requires ParamChars(p)
    ensures IsSgr(Sgr(p))
  {
    var s := Sgr(p);
    forall i | 2 <= i < |s| - 1 ensures ('0' <= s[i] <= '9') || s[i] == ';' {
      assert s[i] == p[i - 2];
    }
  }

  /** The parameters of a colour of non-negative components use only digits and `;`. */
  lemma RgbWellFormed(kind: string, r: int, g: int, b: int)
    requires ParamChars(kind)
    ensures 0 <= r && 0 <= g && 0 <= b ==> IsSgr(Sgr(kind + RgbTail(r, g, b)))
  {
    if r < 0 || g < 0 || b < 0 {
      return;
    }
    var sep, two := ";", ";2;";
    assert ParamChars(sep) && ParamChars(two);
    var rs, gs, bs := NatToString(r), NatToString(g), NatToString(b);
    ParamConcat(two, rs);
    ParamConcat(two + rs, sep);
    ParamConcat(two + rs + sep, gs);
    ParamConcat(two + rs + sep + gs, sep);
    ParamConcat(two + rs + sep + gs + sep, bs);
    ParamConcat(kind, RgbTail(r, g, b));
    SgrWellFormed(kind + RgbTail(r, g, b));
  }

  /** Turning the `3` of `38...` into a `4` gives `48...`. */
  lemma KindSwap(t: string)
    ensures var fg := Sgr("38" + t);
      |fg| >= 3 && fg[2] == '3' && fg[..2] + "4" + fg[3..] == Sgr("48" + t)
  {
    var fg, bg := Sgr("38" + t), Sgr("48" + t);
    assert fg[..2] == [Esc, '['];
    assert fg[3..] == "8" + t + "m";
    assert bg == [Esc, '['] + "4" + ("8" + t + "m");
  }

  /** A background colour is the foreground colour of the same components with its `3` turned into a `4`. */
  lemma ForegroundBackground(r: int, g: int, b: int)
    ensures var fg := FromRgb(r, g, b);
      fg[2] == '3' && fg[..2] + "4" + fg[3..] == BgFromRgb(r, g, b)
  {
    KindSwap(RgbTail(r, g, b));
  }

  /** `Colors.ORANGE` */
  const Orange := FromRgb(255, 165, 0)

  /** The colour of each standard level name, as the formatter's table gives it; other names are missing (`KeyError`). */
  function LevelColor(levelname: string): (c: Option<string>)
    ensures c.Some? <==> levelname in {"DEBUG", "INFO", "WARNING", "ERROR", "CRITICAL"}
    ensures levelname == "DEBUG" ==> c == Some(FromRgb(255, 165, 0))
    ensures levelname == "INFO" ==> c == Some(Green)
    ensures levelname == "WARNING" ==> c == Some(Yellow)
    ensures levelname == "ERROR" ==> c == Some(Red)
    ensures levelname == "CRITICAL" ==> c == Some(Bold + Red)
  {
    match levelname
    case "DEBUG" => Some(Orange)
    case "INFO" => Some(Green)
    case "WARNING" => Some(Yellow)
    case "ERROR" => Some(Red)
    case "CRITICAL" => Some(Bold + Red)
    case _ => None
  }

  /** The five levels get five different colours. */
  lemma LevelColorsDistinct(x: string, y: string)
    requires LevelColor(x).Some? && LevelColor(y).Some? && x != y
    ensures LevelColor(x) != LevelColor(y)
  {
    assert Orange[2] == '3' && Orange[3] == '8';
    assert (Bold + Red)[2] == '1';
    assert |Green| == |Yellow| == |Red| == 5;
    assert Green[3] == '2' && Yellow[3] == '3' && Red[3] == '1';
  }

  /** The placeholders the formatter rewrites. */
  const NameField := "%(name)s"
  const LevelField := "%(levelname)s"

  /** The format `logging.Formatter` falls back to when none is given. */
  const DefaultFormat := "%(message)s"

  /** One pass of `format`: every level placeholder wrapped in `color` and `END`. */
  function Recolor(fmt: string, color: string): (r: string)
    ensures |fmt| + |End| <= |r| || r == fmt
  {
    ReplaceGrows(fmt, LevelField, color + LevelField + End);
    ReplaceAll(fmt, LevelField, color + LevelField + End)
  }

  /** A format without a level placeholder comes back unchanged. */
  lemma RecolorAbsent(fmt: string, color: string)
    requires !Contains(fmt, LevelField)
    ensures Recolor(fmt, color) == fmt
  {
    ReplaceAbsent(fmt, LevelField, color + LevelField + End);
  }

  /** `ColorizedStreamFormatter`: a formatter whose format string is rewritten on every record. */
  class ColorizedStreamFormatter {
    var fmt: string

    /**
     * `ColorizedStreamFormatter(fmt)`: the logger-name placeholder is wrapped
     * in cyan; a missing or empty format becomes the library default
     * (`fmt or default_format`), and an empty string stays empty under
     * `replace`.
     */
    constructor (fmt: Option<string>)
      ensures fmt.Some? && fmt.value != "" ==> this.fmt == ReplaceAll(fmt.value, NameField, Cyan + NameField + End)
      ensures fmt.None? || fmt.value == "" ==> this.fmt == DefaultFormat
      ensures this.fmt != ""
    {
      if fmt.Some? {
        var replaced := ReplaceAll(fmt.value, NameField, Cyan + NameField + End);
        if fmt.value == "" {
          assert replaced == "";
        } else {
          ReplaceNonEmpty(fmt.value, NameField, Cyan + NameField + End);
        }
        this.fmt := if replaced == "" then DefaultFormat else replaced;
      } else {
        this.fmt := DefaultFormat;
      }
    }

    /**
     * `format(record)` for a record of level `levelname`: looks the colour up
     * (a missing level raises before anything changes) and stores the
     * rewritten format back.  The rendering of the record itself is the
     * logging library's and is not modelled; the format used is returned.
     */
    method Format(levelname: string) returns (r: Result<string, LookupError>)
      modifies this
      ensures LevelColor(levelname).None? ==> r == Err(KeyError) && fmt == old(fmt)
      ensures LevelColor(levelname).Some? ==> fmt == Recolor(old(fmt), LevelColor(levelname).value) && r == Ok(fmt)
    {
      var color := LevelColor(levelname);
      if color.None? {
        return Err(KeyError);
      }
      var newLevelname := color.value + LevelField + End;
      fmt := ReplaceAll(fmt, LevelField, newLevelname);
      r := Ok(fmt);
    }
  }

  /** Why `format` raises. */
  datatype LookupError = KeyError

  /** `s` repeated `k` times. */
  function Repeat(s: string, k: nat): string
  {
    if k == 0 then "" else Repeat(s, k - 1) + s
  }

  lemma {:induction false} RepeatFront(s: string, k: nat)
    ensures s + Repeat(s, k) == Repeat(s, k) + s
  {
    if k > 0 {
      RepeatFront(s, k - 1);
      assert s + Repeat(s, k) == (s + Repeat(s, k - 1)) + s;
    }
  }

  /** `Recolor` applied `k` times with the same colour. */
  function RecolorTimes(fmt: string, color: string, k: nat): string
  {
    if k == 0 then fmt else Recolor(RecolorTimes(fmt, color, k - 1), color)
  }

  /** No `%` in `s`. */
  predicate NoPercent(s: string)
  {
    forall i :: 0 <= i < |s| ==> s[i] != '%'
  }

  lemma NoPercentConcat(a: string, b: string)
    requires NoPercent(a) && NoPercent(b)
    ensures NoPercent(a + b)
  {
    forall i | 0 <= i < |a + b| ensures (a + b)[i] != '%' {
      if i < |a| { assert (a + b)[i] == a[i]; } else { assert (a + b)[i] == b[i - |a|]; }
    }
  }

  lemma {:induction false} RepeatNoPercent(s: string, k: nat)
    requires NoPercent(s)
    ensures NoPercent(Repeat(s, k))
  {
    if k > 0 {
      RepeatNoPercent(s, k - 1);
      NoPercentConcat(Repeat(s, k - 1), s);
    }
  }

  /**
   * One rewrite of a format with one level placeholder: the text before it
   * has no placeholder and no `%` close enough to its end to start one, the
   * text after it has no placeholder.
   */
  lemma RecolorOnce(pre: string, post: string, color: string)
    requires !Contains(pre, LevelField) && TailFree(pre, '%', |LevelField| - 1)
    requires !Contains(post, LevelField)
    ensures Recolor(pre + LevelField + post, color) == pre + (color + LevelField + End) + post
  {
    ReplaceOnce(pre, post, LevelField, color + LevelField + End);
  }

  lemma Regroup(x: string, a: string, c: string, f: string, e: string, b: string, y: string)
    ensures (x + a) + (c + f + e) + (b + y) == x + (a + c) + f + (e + b) + y
  {
  }

  /** Colours before the placeholder and resets after it keep the split `RecolorOnce` needs. */
  lemma SplitKept(x: string, y: string, color: string, k: nat)
    requires !Contains(x, LevelField) && TailFree(x, '%', |LevelField| - 1)
    requires !Contains(y, LevelField)
    requires NoPercent(color)
    ensures !Contains(x + Repeat(color, k), LevelField) && TailFree(x + Repeat(color, k), '%', |LevelField| - 1)
    ensures !Contains(Repeat(End, k) + y, LevelField)
  {
    RepeatNoPercent(color, k);
    AppendFree(x, Repeat(color, k), LevelField);
    assert NoPercent(End);
    RepeatNoPercent(End, k);
    PrependFree(Repeat(End, k), y, LevelField);
  }

  /**
   * Because the rewritten format is stored back, a format with one level
   * placeholder, after `k` records of the same level, has `k` colour
   * prefixes before the placeholder and `k` resets after it.
   */
  lemma {:induction false} ColorsAccumulate(x: string, y: string, color: string, k: nat)
    requires !Contains(x, LevelField) && TailFree(x, '%', |LevelField| - 1)
    requires !Contains(y, LevelField)
    requires NoPercent(color)
    ensures RecolorTimes(x + LevelField + y, color, k) == x + Repeat(color, k) + LevelField + Repeat(End, k) + y
  {
    if k > 0 {
      var rc, re := Repeat(color, k - 1), Repeat(End, k - 1);
      assert RecolorTimes(x + LevelField + y, color, k - 1) == (x + rc) + LevelField + (re + y) by {
        ColorsAccumulate(x, y, color, k - 1);
      }
      assert Recolor((x + rc) + LevelField + (re + y), color) == (x + rc) + (color + LevelField + End) + (re + y) by {
        SplitKept(x, y, color, k - 1);
        RecolorOnce(x + rc, re + y, color);
      }
      RepeatFront(End, k - 1);
      Regroup(x, rc, color, LevelField, End, re, y);
    }
  }

  /** The format every `Logger` installs, `[%(name)s] [%(levelname)s] %(message)s`, in pieces. */
  const MessageTail := "] %(message)s"
  const LoggerFormatTail := "] [" + LevelField + MessageTail
  const LoggerFormat := "[" + NameField + LoggerFormatTail

  /** The same format once the constructor has wrapped the name: what comes before the level placeholder, and all of it. */
  const ColoredLoggerHead := "[" + Cyan + NameField + End + "] ["
  const ColoredLoggerFormat := ColoredLoggerHead + LevelField + MessageTail

  /** logging.INFO */
  const InfoLevel := 20

  /** `Logger(name, level=logging.INFO)`: a logger writing through a colourising formatter with the fixed format. */
  class Logger {
    const name: string
    const level: int
    const formatter: ColorizedStreamFormatter

    constructor (name: string, level: int := InfoLevel)
      ensures this.name == name && this.level == level && fresh(formatter)
      ensures formatter.fmt == ColoredLoggerFormat
    {
      this.name := name;
      this.level := level;
      var f := new ColorizedStreamFormatter(Some(LoggerFormat));
      this.formatter := f;
      LoggerFormatNameWrapped();
    }
  }

  /** The fixed format has exactly one logger-name placeholder, which the constructor wraps. */
  lemma LoggerFormatNameWrapped()
    ensures ReplaceAll(LoggerFormat, NameField, Cyan + NameField + End) == ColoredLoggerFormat
  {
    LoggerTailHasNoName();
    assert !Contains("[", NameField);
    ReplaceOnce("[", LoggerFormatTail, NameField, Cyan + NameField + End);
    assert "[" + (Cyan + NameField + End) + LoggerFormatTail == ColoredLoggerFormat;
  }

  /** No name placeholder after the first one. */
  lemma LoggerTailHasNoName()
    ensures !Contains(LoggerFormatTail, NameField)
  {
    var a := "] [" + LevelField;
    assert !Contains(a, NameField) && TailFree(a, '%', |NameField| - 1) by {
      FieldsDiffer(LevelField);
      PrependFree("] [", LevelField, NameField);
    }
    FieldsDiffer(MessageTail);
    ConcatFree(a, MessageTail, NameField);
    assert LoggerFormatTail == a + MessageTail;
  }

  /** Neither the level placeholder nor the message tail holds a name placeholder: their `%(` is not followed by `n`. */
  lemma FieldsDiffer(f: string)
    requires f == LevelField || f == MessageTail
    ensures !Contains(f, NameField)
  {
    forall i | 0 <= i <= |f| - |NameField| ensures !OccursAt(f, NameField, i) {
      var w := f[i..i + |NameField|];
      assert w[0] == f[i] && w[2] == f[i + 2];
    }
  }

  /** A well-formed SGR sequence has no `%`, so it never starts a placeholder. */
  lemma SgrNoPercent(s: string)
    requires IsSgr(s)
    ensures NoPercent(s)
  {
  }

  /** None of the level colours holds a `%`. */
  lemma LevelColorNoPercent(levelname: string)
    requires LevelColor(levelname).Some?
    ensures NoPercent(LevelColor(levelname).value)
  {
    assert ParamChars("1") && ParamChars("31") && ParamChars("32") && ParamChars("33");
    SgrWellFormed("1");
    SgrWellFormed("31");
    SgrWellFormed("32");
    SgrWellFormed("33");
    SgrNoPercent(Orange);
    SgrNoPercent(Bold);
    SgrNoPercent(Red);
    SgrNoPercent(Green);
    SgrNoPercent(Yellow);
    NoPercentConcat(Bold, Red);
  }

  /**
   * A name placeholder between text without `%` holds no level placeholder,
   * and with at least five characters after it, no `%` lies close enough to
   * the end to start one.
   */
  lemma NameFieldIsNotLevel(p: string, s: string)
    requires NoPercent(p) && NoPercent(s) && |s| >= 5
    ensures !Contains(p + NameField + s, LevelField)
    ensures TailFree(p + NameField + s, '%', |LevelField| - 1)
  {
    var t := p + NameField + s;
    assert forall j :: 1 <= j < |NameField| ==> NameField[j] != '%';
    forall i | 0 <= i < |t| && i != |p| ensures t[i] != '%' {
      if i < |p| {
        assert t[i] == p[i];
      } else if i < |p| + |NameField| {
        assert t[i] == NameField[i - |p|];
      } else {
        assert t[i] == s[i - |p| - |NameField|];
      }
    }
    forall i | 0 <= i <= |t| - |LevelField| ensures !OccursAt(t, LevelField, i) {
      var w := t[i..i + |LevelField|];
      assert w[0] == t[i];
      if i == |p| {
        assert w[2] == t[|p| + 2] == NameField[2];
      }
    }
  }

  /** The installed format splits around its one level placeholder as `ColorsAccumulate` needs. */
  lemma ColoredLoggerFormatSplits()
    ensures !Contains(ColoredLoggerHead, LevelField) && TailFree(ColoredLoggerHead, '%', |LevelField| - 1)
    ensures !Contains(MessageTail, LevelField)
  {
    var p, s := "[" + Cyan, End + "] [";
    assert NoPercent(p) && NoPercent(s);
    NameFieldIsNotLevel(p, s);
    assert p + NameField + s == ColoredLoggerHead;
    var m := MessageTail;
    forall i | 0 <= i <= |m| - |LevelField| ensures !OccursAt(m, LevelField, i) {
      assert m[i..i + |LevelField|][0] == m[i];
    }
  }

  /**
   * A `Logger`'s formatter, after `k` records of one standard level, has
   * piled `k` copies of that level's colour before the level placeholder and
   * `k` resets after it.
   */
  lemma LoggerColorsAccumulate(levelname: string, k: nat)
    requires LevelColor(levelname).Some?
    ensures var color := LevelColor(levelname).value;
      RecolorTimes(ColoredLoggerFormat, color, k) ==
      ColoredLoggerHead + Repeat(color, k) + LevelField + Repeat(End, k) + MessageTail
  {
    LevelColorNoPercent(levelname);
    ColoredLoggerFormatSplits();
    ColorsAccumulate(ColoredLoggerHead, MessageTail, LevelColor(levelname).value, k);
  }
}
