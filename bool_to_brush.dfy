/** The bool-to-brush value converter (Converters/BoolToBrushConverter.cs): the binding parameter
    holds two colours separated by ';', the first for false and the second for true; anything
    that does not fit that shape falls back to the brush of #1d4ed8.

    Color.TryParse is an oracle, the function parameter `tryParse`. */
module BoolToBrush {
  import opened Common

  datatype Color = Color(a: byte, r: byte, g: byte, b: byte)
  datatype Brush = SolidColorBrush(color: Color)

  /** The bound value: a boxed bool, or anything else (null included). */
  datatype BindingValue = BoolValue(b: bool) | OtherValue

  /** The converter parameter: a string, or anything else (null included). */
  datatype Parameter = StringParameter(s: string) | OtherParameter

  datatype ConverterException = NotImplementedException

  const Separator := ';'

  /** Color.Parse("#1d4ed8"): opaque, red 0x1d, green 0x4e, blue 0xd8. */
  const DefaultColor := Color(255, 0x1d, 0x4e, 0xd8)
  const DefaultBrush := SolidColorBrush(DefaultColor)

  /** string.Split(sep): the pieces between separators, empty pieces kept. */
  function Split(s: string, sep: char): (parts: seq<string>)
    ensures |parts| >= 1
    ensures forall i :: 0 <= i < |parts| ==> sep !in parts[i]
    decreases |s|
  {
    if |s| == 0 then [[]]
    else
      var rest := Split(s[1..], sep);
      if s[0] == sep then [[]] + rest else [[s[0]] + rest[0]] + rest[1..]
  }

  /** string.Join(sep, parts), the inverse of Split. */
  function Join(parts: seq<string>, sep: char): string
    requires |parts| >= 1
    decreases |parts|
  {
    if |parts| == 1 then parts[0] else parts[0] + [sep] + Join(parts[1..], sep)
  }

  function Occurrences(s: string, c: char): nat
    decreases |s|
  {
    if |s| == 0 then 0 else (if s[0] == c then 1 else 0) + Occurrences(s[1..], c)
  }

  /** Split cuts the text into one more piece than it has separators. */
  lemma {:induction false} SplitCount(s: string, sep: char)
    ensures |Split(s, sep)| == Occurrences(s, sep) + 1
    decreases |s|
  {
    if |s| > 0 {
      SplitCount(s[1..], sep);
    }
  }

  /** Joining the pieces again gives back the text. */
  lemma {:induction false} JoinSplit(s: string, sep: char)
    ensures Join(Split(s, sep), sep) == s
    decreases |s|
  {
    if |s| > 0 {
      var rest := Split(s[1..], sep);
      JoinSplit(s[1..], sep);
      if s[0] == sep {
        assert Split(s, sep) == [[]] + rest;
        assert |Split(s, sep)| >= 2;
        assert Split(s, sep)[1..] == rest;
        assert s == [sep] + s[1..];
      } else if |rest| == 1 {
        assert Split(s, sep) == [[s[0]] + rest[0]];
        assert s == [s[0]] + s[1..];
      } else {
        var parts := Split(s, sep);
        assert parts == [[s[0]] + rest[0]] + rest[1..];
        assert parts[1..] == rest[1..];
        assert Join(rest, sep) == rest[0] + [sep] + Join(rest[1..], sep);
        assert Join(parts, sep) == [s[0]] + rest[0] + [sep] + Join(rest[1..], sep);
        assert s == [s[0]] + s[1..];
      }
    }
  }

  /** Text free of separators splits into itself. */
  lemma {:induction false} SplitPlain(s: string, sep: char)
    requires sep !in s
    ensures Split(s, sep) == [s]
    decreases |s|
  {
    if |s| > 0 {
      SplitPlain(s[1..], sep);
      assert s == [s[0]] + s[1..];
    }
  }

  /** Splitting a + sep + b, with no separator in a, gives a, then the pieces of b. */
  lemma {:induction false} SplitAtFirst(a: string, b: string, sep: char)
    requires sep !in a
    ensures Split(a + [sep] + b, sep) == [a] + Split(b, sep)
    decreases |a|
  {
    var s := a + [sep] + b;
    if |a| == 0 {
      assert s == [sep] + b;
      assert s[1..] == b;
    } else {
      assert s[1..] == a[1..] + [sep] + b;
      SplitAtFirst(a[1..], b, sep);
      assert [a[0]] + a[1..] == a;
    }
  }

  /** The colour string the converter picks: segment 1 for true, segment 0 for false. */
  function ChosenSegment(isDragging: bool, segments: seq<string>): string
    requires |segments| == 2
  {
    if isDragging then segments[1] else segments[0]
  }

  /** Convert: the brush of the chosen segment's colour when the value is a bool, the parameter is
      a string of exactly two ';'-separated segments and the chosen one parses; the default
      brush otherwise. */
  function Convert(value: BindingValue, parameter: Parameter, tryParse: string -> Option<Color>): (brush: Brush)
    ensures brush == DefaultBrush
            || (value.BoolValue? && parameter.StringParameter?
                && exists segment :: segment in Split(parameter.s, Separator) && tryParse(segment) == Some(brush.color))
  {
    if value.BoolValue? && parameter.StringParameter? then
      var colorStrings := Split(parameter.s, Separator);
      if |colorStrings| == 2 then
        var colorString := ChosenSegment(value.b, colorStrings);
        match tryParse(colorString)
        case Some(color) => SolidColorBrush(color)
        case None => DefaultBrush
      else DefaultBrush
    else DefaultBrush
  }

  /** ConvertBack always throws NotImplementedException. */
  function ConvertBack(value: Brush, parameter: Parameter): (r: Result<BindingValue, ConverterException>)
    ensures r.Failure? && r.error == NotImplementedException
  {
    Failure(NotImplementedException)
  }

  /** A value that is not a bool, or a parameter that is not a string, gives the default brush. */
  lemma ConvertDefaultsOnWrongTypes(value: BindingValue, parameter: Parameter, tryParse: string -> Option<Color>)
    requires !value.BoolValue? || !parameter.StringParameter?
    ensures Convert(value, parameter, tryParse) == DefaultBrush
  {
  }

  /** A parameter without exactly one ';' gives the default brush, whatever the colours. */
  lemma ConvertDefaultsOnSegmentCount(b: bool, s: string, tryParse: string -> Option<Color>)
    requires Occurrences(s, Separator) != 1
    ensures Convert(BoolValue(b), StringParameter(s), tryParse) == DefaultBrush
  {
    SplitCount(s, Separator);
  }

  /** For "f;t": true picks t and false picks f; the brush is that colour when it parses and the
      default when it does not, even if the other segment would parse. */
  lemma ConvertSelectsSegment(f: string, t: string, tryParse: string -> Option<Color>)
    requires Separator !in f && Separator !in t
    ensures Convert(BoolValue(true), StringParameter(f + [Separator] + t), tryParse)
            == (if tryParse(t).Some? then SolidColorBrush(tryParse(t).value) else DefaultBrush)
    ensures Convert(BoolValue(false), StringParameter(f + [Separator] + t), tryParse)
            == (if tryParse(f).Some? then SolidColorBrush(tryParse(f).value) else DefaultBrush)
  {
    SplitAtFirst(f, t, Separator);
    SplitPlain(t, Separator);
    assert Split(f + [Separator] + t, Separator) == [f, t];
  }

  /** Every two-segment parameter is of that form: its segments joined by the one separator. */
  lemma TwoSegmentsAreJoined(s: string)
    requires |Split(s, Separator)| == 2
    ensures s == Split(s, Separator)[0] + [Separator] + Split(s, Separator)[1]
  {
    JoinSplit(s, Separator);
    var parts := Split(s, Separator);
    assert parts[1..] == [parts[1]];
  }
}
