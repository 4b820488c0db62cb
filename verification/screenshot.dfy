/** Screenshot file naming of the canary runtime: each capture is numbered
    from a process-wide counter and labelled with an optional category and
    value, giving names such as `001.png`, `002-login.png` or
    `003-login-load.png` inside the screenshot directory.
 */
module Screenshot {
  import opened Text

  /** A label argument: `null`, or a string (an omitted label is the empty
      string, the parameter's default). */
  datatype Label = Null | Str(text: string)

  /** The counter after a capture and the file name that capture used. */
  datatype Shot = Shot(counter: nat, name: string)

  /** The counter after a capture and the full path handed to the browser. */
  datatype Capture = Capture(counter: nat, path: string)

  /** The process-wide capture counter before the first capture. */
  const InitialCounter: nat := 0
  const MinDigits: nat := 3
  const Separator: string := "-"
  const Extension: string := ".png"

  /** Label clean-up: `null` becomes empty; otherwise the label is trimmed and
      every `/` becomes `-`, so a cleaned label never contains a `/` and never
      starts or ends with whitespace. */
  function Sanitize(tag: Label): (r: string)
    ensures tag.Null? ==> r == ""
    ensures '/' !in r
    ensures IsTrimmed(r)
  {
    match tag
    case Null => ""
    case Str(s) =>
      assert !IsWhitespace('-');
      ReplaceKeepsTrimmed(Trim(s), '/', '-');
      ReplaceAll(Trim(s), '/', '-')
  }

  /** Apart from the slashes, a cleaned label is the trimmed label character
      for character. */
  lemma SanitizeText(s: string)
    ensures |Sanitize(Str(s))| == |Trim(s)|
    ensures forall k :: 0 <= k < |Trim(s)| ==>
              Sanitize(Str(s))[k] == (if Trim(s)[k] == '/' then '-' else Trim(s)[k])
  {
  }

  /** A label made only of whitespace is cleaned to the empty string, and
      only such a label (or `null`) is. */
  lemma SanitizeEmpty(s: string)
    ensures Sanitize(Str(s)) == "" <==> AllWhitespace(s)
  {
    var t := Trim(s);
    if t == [] {
      var i := TrimInfix(s);
      forall k | 0 <= k < |s| ensures IsWhitespace(s[k]) {
        if k < i { assert s[..i][k] == s[k]; } else { assert s[i..][k - i] == s[k]; }
      }
    }
    if AllWhitespace(s) {
      assert s[..0] == [] && s[0..] == s;
      TrimUnique(s, 0, 0);
    }
  }

  /** Cleaning a cleaned label changes nothing. */
  lemma SanitizeIdempotent(tag: Label)
    ensures Sanitize(Str(Sanitize(tag))) == Sanitize(tag)
  {
    var r := Sanitize(tag);
    SanitizeKeeps(r);
  }

  /** A label that is already clean is used as it is. */
  lemma SanitizeKeeps(s: string)
    requires IsTrimmed(s) && '/' !in s
    ensures Sanitize(Str(s)) == s
  {
    assert s[..0] == [] && s[|s|..] == [] && s[0..|s|] == s;
    TrimUnique(s, 0, |s|);
    var q := ReplaceAll(s, '/', '-');
    assert q == s by {
      forall k | 0 <= k < |s| ensures q[k] == s[k] {
        assert s[k] != '/';
      }
    }
  }

  /** The numeric part of a file name: the counter in decimal, left-padded
      with `0` to at least three characters. */
  function Number(n: nat): string
  {
    PadStart(Decimal(n), MinDigits, '0')
  }

  /** A label's part of the file name: nothing for an empty label, otherwise
      the separator followed by the label. */
  function Segment(s: string): string
  {
    if s == "" then "" else Separator + s
  }

  /** Everything after the number: the label segments and the extension. */
  function Tail(c: string, v: string): string
  {
    Segment(c) + Segment(v) + Extension
  }

  /** One capture's naming step: the counter goes up by one and the new value
      numbers the file; the cleaned category and value follow, each only when
      non-empty, always in the order number, category, value, joined by `-`
      and ending in `.png`. */
  function Filename(counter: nat, category: Label, value: Label): (r: Shot)
    ensures r.counter == counter + 1
    ensures r.name == Number(counter + 1) + Tail(Sanitize(category), Sanitize(value))
    ensures '/' !in r.name
  {
    var n := counter + 1;
    var c := Sanitize(category);
    var v := Sanitize(value);
    var parts := [Number(n)] + (if c != "" then [c] else []) + (if v != "" then [v] else []);
    JoinParts(Number(n), c, v);
    NumberNoSlash(n);
    TailNoSlash(c, v);
    Shot(n, Join(parts, Separator) + Extension)
  }

  lemma JoinParts(num: string, c: string, v: string)
    ensures Join([num] + (if c != "" then [c] else []) + (if v != "" then [v] else []), Separator)
            + Extension == num + Tail(c, v)
  {
    if c != "" && v != "" {
      assert [num] + [c] + [v] == [num, c, v];
      JoinThree(num, c, v);
    } else if c != "" {
      assert [num] + [c] + [] == [num, c];
      JoinTwo(num, c, v);
    } else if v != "" {
      assert [num] + [] + [v] == [num, v];
      JoinTwo(num, v, c);
    } else {
      assert [num] + [] + [] == [num];
      assert Tail(c, v) == Extension;
    }
  }

  lemma JoinThree(num: string, c: string, v: string)
    requires c != "" && v != ""
    ensures Join([num, c, v], Separator) + Extension == num + Tail(c, v)
  {
    var cv := Join([c, v], Separator);
    assert [num, c, v][1..] == [c, v];
    assert Join([num, c, v], Separator) == num + Separator + cv;
    assert [c, v][1..] == [v];
    assert Join([v], Separator) == v;
    assert cv == c + Separator + v;
    assert Separator + cv == Segment(c) + Segment(v);
  }

  /** One label present, the other empty (whichever it is, the tail is the
      same). */
  lemma JoinTwo(num: string, x: string, y: string)
    requires x != "" && y == ""
    ensures Join([num, x], Separator) + Extension == num + Tail(x, y)
    ensures Join([num, x], Separator) + Extension == num + Tail(y, x)
  {
    assert Join([num, x], Separator) == num + Separator + Join([x], Separator);
    assert Tail(x, y) == Segment(x) + Extension == Tail(y, x);
  }

  lemma TailNoSlash(c: string, v: string)
    requires '/' !in c && '/' !in v
    ensures '/' !in Tail(c, v)
  {
    assert '/' !in Separator && '/' !in Extension;
    assert '/' !in Segment(c) && '/' !in Segment(v);
  }

  lemma NumberNoSlash(n: nat)
    ensures '/' !in Number(n)
  {
    var p := Number(n);
    NumberValue(n);
    forall k | 0 <= k < |p| ensures p[k] != '/' {
      assert IsDigit(p[k]);
    }
  }

  /** The longest prefix of `s` made of decimal digits. */
  function LeadingDigits(s: string): (r: string)
    ensures AllDigits(r)
  {
    if s != [] && IsDigit(s[0]) then [s[0]] + LeadingDigits(s[1..]) else []
  }

  lemma {:induction false} LeadingDigitsOf(d: string, rest: string)
    requires AllDigits(d)
    requires rest == [] || !IsDigit(rest[0])
    ensures LeadingDigits(d + rest) == d
  {
    if d != [] {
      assert (d + rest)[1..] == d[1..] + rest;
      LeadingDigitsOf(d[1..], rest);
    } else {
      assert d + rest == rest;
    }
  }

  /** The padded number reads back as the number itself. */
  lemma NumberValue(n: nat)
    ensures AllDigits(Number(n)) && |Number(n)| >= MinDigits
    ensures DecimalValue(Number(n)) == n
  {
    var p := Number(n);
    var d := Decimal(n);
    var z := p[..|p| - |d|];
    assert p == z + d;
    LeadingZeros(z, d);
    DecimalRoundTrip(n);
  }

  /** The digits a file name starts with are the new counter value, padded:
      the name can be read back to the capture's number. */
  lemma FilenameNumber(counter: nat, category: Label, value: Label)
    ensures LeadingDigits(Filename(counter, category, value).name) == Number(counter + 1)
    ensures DecimalValue(LeadingDigits(Filename(counter, category, value).name)) == counter + 1
  {
    var p := Number(counter + 1);
    var rest := Tail(Sanitize(category), Sanitize(value));
    assert rest[0] == '-' || rest[0] == '.' by { SuffixStart(Sanitize(category), Sanitize(value)); }
    NumberValue(counter + 1);
    LeadingDigitsOf(p, rest);
  }

  lemma SuffixStart(c: string, v: string)
    ensures Tail(c, v)[0] == '-' || Tail(c, v)[0] == '.'
  {
    if c != "" {
      assert (Segment(c) + Segment(v) + Extension)[0] == Segment(c)[0];
    } else if v != "" {
      assert (Segment(c) + Segment(v) + Extension)[0] == Segment(v)[0];
    } else {
      assert Segment(c) + Segment(v) + Extension == Extension;
    }
  }

  /** Captures taken at different counter values never share a file name,
      whatever their labels, so no screenshot overwrites another. */
  lemma FilenamesDistinct(c1: nat, cat1: Label, val1: Label, c2: nat, cat2: Label, val2: Label)
    requires c1 != c2
    ensures Filename(c1, cat1, val1).name != Filename(c2, cat2, val2).name
  {
    FilenameNumber(c1, cat1, val1);
    FilenameNumber(c2, cat2, val2);
  }

  /** Numbers of three digits or more are written in full: the padding only
      ever adds zeros and never cuts a longer number down to three digits. */
  lemma NumberNotTruncated(n: nat)
    requires n >= 100
    ensures Number(n) == Decimal(n)
  {
    DecimalLength(n);
  }

  lemma DecimalLength(n: nat)
    requires n >= 100
    ensures |Decimal(n)| >= MinDigits
  {
    assert n / 10 >= 10 && n / 100 >= 1;
    assert |Decimal(n)| == |Decimal(n / 10)| + 1;
    assert |Decimal(n / 10)| == |Decimal(n / 10 / 10)| + 1;
  }

  /** The names listed for the runtime's first four captures: `001.png`,
      `002-login.png`, `003-login-load.png`, `004-login-error.png`. */
  lemma DocumentedExamples()
    ensures Filename(InitialCounter, Str(""), Str("")).name == "001.png"
    ensures Filename(InitialCounter + 1, Str("login"), Str("")).name == "002-login.png"
    ensures Filename(InitialCounter + 2, Str("login"), Str("load")).name == "003-login-load.png"
    ensures Filename(InitialCounter + 3, Str("login"), Str("error")).name == "004-login-error.png"
  {
    assert InitialCounter + 1 == 1 && InitialCounter + 2 == 2 && InitialCounter + 3 == 3;
    FirstExample();
    SecondExample();
    ThirdExample();
    FourthExample();
  }

  lemma FirstExample()
    ensures Filename(0, Str(""), Str("")).name == "001.png"
  {
    EmptyClean();
    CleanExample(0, "", "");
    FirstText();
  }

  lemma FirstText()
    ensures ['0', '0', DigitChar(1)] + Tail("", "") == "001.png"
  {
    assert DigitChar(1) == '1';
  }

  lemma SecondExample()
    ensures Filename(1, Str("login"), Str("")).name == "002-login.png"
  {
    LoginClean();
    EmptyClean();
    CleanExample(1, "login", "");
    SecondText();
  }

  lemma SecondText()
    ensures ['0', '0', DigitChar(2)] + Tail("login", "") == "002-login.png"
  {
    assert DigitChar(2) == '2';
  }

  lemma ThirdExample()
    ensures Filename(2, Str("login"), Str("load")).name == "003-login-load.png"
  {
    LoginClean();
    LoadClean();
    CleanExample(2, "login", "load");
    ThirdText();
  }

  lemma ThirdText()
    ensures ['0', '0', DigitChar(3)] + Tail("login", "load") == "003-login-load.png"
  {
    assert DigitChar(3) == '3';
  }

  lemma FourthExample()
    ensures Filename(3, Str("login"), Str("error")).name == "004-login-error.png"
  {
    LoginClean();
    ErrorClean();
    CleanExample(3, "login", "error");
    FourthText();
  }

  lemma FourthText()
    ensures ['0', '0', DigitChar(4)] + Tail("login", "error") == "004-login-error.png"
  {
    assert DigitChar(4) == '4';
  }

  /** The labels of the documented captures are already clean. */
  lemma EmptyClean()
    ensures Sanitize(Str("")) == ""
  {
    SanitizeKeeps("");
  }

  lemma LoginClean()
    ensures Sanitize(Str("login")) == "login"
  {
    SanitizeKeeps("login");
  }

  lemma LoadClean()
    ensures Sanitize(Str("load")) == "load"
  {
    SanitizeKeeps("load");
  }

  lemma ErrorClean()
    ensures Sanitize(Str("error")) == "error"
  {
    SanitizeKeeps("error");
  }

  /** The name of an early capture whose labels are already clean. */
  lemma CleanExample(counter: nat, c: string, v: string)
    requires counter < 9
    requires Sanitize(Str(c)) == c && Sanitize(Str(v)) == v
    ensures Filename(counter, Str(c), Str(v)).name == ['0', '0', DigitChar(counter + 1)] + Tail(c, v)
  {
    OneDigit(counter + 1);
  }

  /** A one-digit number gets two zeros in front. */
  lemma OneDigit(n: nat)
    requires n < 10
    ensures Number(n) == ['0', '0', DigitChar(n)]
  {
    var d := [DigitChar(n)];
    assert Decimal(n) == d;
    assert Repeat('0', 2) == ['0', '0'] by {
      assert Repeat('0', 1) == ['0'] + Repeat('0', 0);
    }
  }

  /** `screenshot(page, category, value)` minus the browser call: the counter
      after the capture and the path the image is written to, which is the
      file name directly inside `root`. */
  function Screenshot(root: string, counter: nat, category: Label, value: Label): (r: Capture)
    ensures r.counter == counter + 1
    ensures r.path == root + "/" + Filename(counter, category, value).name
    ensures forall k :: |root| < k < |r.path| ==> r.path[k] != '/'
  {
    var shot := Filename(counter, category, value);
    Capture(shot.counter, root + "/" + shot.name)
  }
}
