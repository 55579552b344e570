/** The front end's line handling (src/app/main.cpp): a request arrives as one text line of
    whitespace-separated fields, which becomes a `NewOrder`. The stdin loop and the printing of
    trades are not part of this model. */
module App {
  import SideEnum
  import MessageTypeEnum
  import opened Messages

  // ---- Splitting a line ----

  /** `isspace` in the C locale: space, tab, line feed, vertical tab, form feed, carriage return. */
  predicate IsSpace(c: char) {
    c == ' ' || '\t' <= c <= '\r'
  }

  /** A word: no whitespace anywhere in it. */
  predicate NoSpace(w: string) {
    forall k :: 0 <= k < |w| ==> !IsSpace(w[k])
  }

  /**
   * What `ParseLine` produces from the rest `s` of a line when the characters `field` of the
   * current field have already been collected: whitespace ends a non-empty field, anything
   * else extends it, and the end of the line ends the last field. No field it yields is
   * empty or holds whitespace.
   */
  function Tokens(s: string, field: string): (r: seq<string>)
    ensures NoSpace(field) ==> forall j :: 0 <= j < |r| ==> r[j] != [] && NoSpace(r[j])
    decreases |s|
  {
    if s == [] then (if field == [] then [] else [field])
    else if IsSpace(s[0]) then (if field == [] then [] else [field]) + Tokens(s[1..], [])
    else
      assert NoSpace(field) ==> NoSpace(field + [s[0]]);
      Tokens(s[1..], field + [s[0]])
  }

  /** The fields of a line. */
  function Fields(line: string): seq<string> {
    Tokens(line, [])
  }

  /** `ParseLine`: one pass over the characters, collecting the current field in a buffer that
      is pushed when whitespace or the end of the line is reached and it is not empty. */
  method ParseLine(line: string) returns (result: seq<string>)
    ensures result == Fields(line)
  {
    result := [];
    var field := "";
    for i := 0 to |line|
      invariant result + Tokens(line[i..], field) == Fields(line)
    {
      var c := line[i];
      assert line[i..][1..] == line[i + 1..];
      if IsSpace(c) {
        if field != [] {
          result := result + [field];
          field := "";
        }
      } else {
        field := field + [c];
      }
    }
    if field != [] {
      result := result + [field];
    }
  }

  /** The characters of `s` that are not whitespace, in order. */
  function Strip(s: string): (r: string)
    ensures NoSpace(r) && |r| <= |s|
    decreases |s|
  {
    if s == [] then []
    else if IsSpace(s[0]) then Strip(s[1..])
    else [s[0]] + Strip(s[1..])
  }

  /** The fields of a line, glued back together. */
  function Concat(fs: seq<string>): string
    decreases |fs|
  {
    if fs == [] then [] else fs[0] + Concat(fs[1..])
  }

  /** Together the fields are the rest of the line with its whitespace taken out, after what
      was already collected. */
  lemma {:induction false} TokensShape(s: string, field: string)
    requires NoSpace(field)
    ensures Concat(Tokens(s, field)) == field + Strip(s)
    decreases |s|
  {
    if s == [] {
      if field != [] {
        assert Concat([field]) == field + Concat([]);
      }
    } else if IsSpace(s[0]) {
      TokensShape(s[1..], []);
      var rest := Tokens(s[1..], []);
      assert Concat(rest) == Strip(s[1..]) == Strip(s);
      if field != [] {
        assert ([field] + rest)[1..] == rest;
        assert Concat([field] + rest) == field + Concat(rest);
      } else {
        assert [] + rest == rest;
      }
    } else {
      TokensShape(s[1..], field + [s[0]]);
      assert field + [s[0]] + Strip(s[1..]) == field + ([s[0]] + Strip(s[1..]));
    }
  }

  /** `ParseLine` never yields an empty field or one with whitespace in it, and the fields are
      the line's other characters, in order. */
  lemma FieldsShape(line: string)
    ensures forall j :: 0 <= j < |Fields(line)| ==> Fields(line)[j] != [] && NoSpace(Fields(line)[j])
    ensures Concat(Fields(line)) == Strip(line)
  {
    TokensShape(line, []);
  }

  /** Only whitespace is stripped to nothing. */
  lemma {:induction false} StripEmpty(s: string)
    ensures Strip(s) == [] <==> forall k :: 0 <= k < |s| ==> IsSpace(s[k])
    decreases |s|
  {
    if s != [] {
      StripEmpty(s[1..]);
      assert forall k :: 1 <= k < |s| ==> s[k] == s[1..][k - 1];
    }
  }

  /** An empty or all-whitespace line, and only such a line, has no fields. */
  lemma FieldsEmpty(line: string)
    ensures Fields(line) == [] <==> forall k :: 0 <= k < |line| ==> IsSpace(line[k])
  {
    FieldsShape(line);
    StripEmpty(line);
    var fs := Fields(line);
    if fs != [] {
      assert Concat(fs) == fs[0] + Concat(fs[1..]);
      assert |Concat(fs)| > 0;
    }
  }

  /** A word is collected into the current field. */
  lemma {:induction false} TokensWord(w: string, s: string, field: string)
    requires NoSpace(w)
    ensures Tokens(w + s, field) == Tokens(s, field + w)
    decreases |w|
  {
    if w != [] {
      assert (w + s)[0] == w[0] && !IsSpace(w[0]);
      assert (w + s)[1..] == w[1..] + s;
      assert NoSpace(w[1..]) by {
        forall k | 0 <= k < |w[1..]| ensures !IsSpace(w[1..][k]) {
          assert w[1..][k] == w[k + 1];
        }
      }
      assert Tokens(w + s, field) == Tokens(w[1..] + s, field + [w[0]]);
      TokensWord(w[1..], s, field + [w[0]]);
      assert w == [w[0]] + w[1..];
      assert field + [w[0]] + w[1..] == field + w;
    } else {
      assert w + s == s && field + w == field;
    }
  }

  /** Fields written out separated by single spaces. */
  function Join(fs: seq<string>): string
    decreases |fs|
  {
    if fs == [] then []
    else if |fs| == 1 then fs[0]
    else fs[0] + " " + Join(fs[1..])
  }

  /** Splitting the line that single spaces join non-empty words into gives the words back. */
  lemma {:induction false} JoinThenParse(fs: seq<string>)
    requires forall j :: 0 <= j < |fs| ==> fs[j] != [] && NoSpace(fs[j])
    ensures Fields(Join(fs)) == fs
    decreases |fs|
  {
    if |fs| == 1 {
      TokensWord(fs[0], [], []);
      assert fs[0] + [] == fs[0] && [] + fs[0] == fs[0];
    } else if |fs| > 1 {
      var rest := Join(fs[1..]);
      JoinThenParse(fs[1..]);
      assert Join(fs) == fs[0] + (" " + rest);
      TokensWord(fs[0], " " + rest, []);
      assert [] + fs[0] == fs[0];
      assert (" " + rest)[1..] == rest;
      assert fs == [fs[0]] + fs[1..];
    }
  }

  /** A run of whitespace, possibly empty. */
  predicate AllSpace(g: string) {
    forall k :: 0 <= k < |g| ==> IsSpace(g[k])
  }

  /** The line `gaps[0] + ws[0] + gaps[1] + ... + ws[n - 1] + gaps[n]`: words with runs of
      whitespace around and between them. */
  function Layout(ws: seq<string>, gaps: seq<string>): string
    requires |gaps| == |ws| + 1
    decreases |ws|
  {
    if ws == [] then gaps[0] else gaps[0] + ws[0] + Layout(ws[1..], gaps[1..])
  }

  /** Leading whitespace is skipped when no field is being collected. */
  lemma {:induction false} TokensSkipSpace(g: string, s: string)
    requires AllSpace(g)
    ensures Tokens(g + s, []) == Tokens(s, [])
    decreases |g|
  {
    if g == [] {
      assert g + s == s;
    } else {
      assert (g + s)[0] == g[0] && (g + s)[1..] == g[1..] + s;
      assert AllSpace(g[1..]) by {
        forall k | 0 <= k < |g[1..]| ensures IsSpace(g[1..][k]) {
          assert g[1..][k] == g[k + 1];
        }
      }
      TokensSkipSpace(g[1..], s);
    }
  }

  /** Whitespace after a word ends its field; the rest of the run is skipped. */
  lemma {:induction false} TokensEndField(g: string, s: string, field: string)
    requires AllSpace(g) && g != [] && field != []
    ensures Tokens(g + s, field) == [field] + Tokens(s, [])
  {
    assert (g + s)[0] == g[0] && (g + s)[1..] == g[1..] + s;
    assert AllSpace(g[1..]) by {
      forall k | 0 <= k < |g[1..]| ensures IsSpace(g[1..][k]) {
        assert g[1..][k] == g[k + 1];
      }
    }
    TokensSkipSpace(g[1..], s);
  }

  /**
   * `ParseLine` recovers the words of any line laid out as non-empty words without whitespace,
   * separated by non-empty runs of whitespace, with optional whitespace before the first and
   * after the last: only the words, in order, and nothing else.
   */
  lemma {:induction false} FieldsOfLayout(ws: seq<string>, gaps: seq<string>)
    requires |gaps| == |ws| + 1
    requires forall j :: 0 <= j < |ws| ==> ws[j] != [] && NoSpace(ws[j])
    requires forall j :: 0 <= j < |gaps| ==> AllSpace(gaps[j])
    requires forall j :: 0 < j < |ws| ==> gaps[j] != []
    ensures Fields(Layout(ws, gaps)) == ws
    decreases |ws|
  {
    if ws == [] {
      TokensSkipSpace(gaps[0], []);
      assert gaps[0] + [] == gaps[0];
    } else {
      var tail := Layout(ws[1..], gaps[1..]);
      assert Layout(ws, gaps) == gaps[0] + (ws[0] + tail);
      TokensSkipSpace(gaps[0], ws[0] + tail);
      TokensWord(ws[0], tail, []);
      assert [] + ws[0] == ws[0];
      // now Fields(Layout(ws, gaps)) == Tokens(tail, ws[0])
      if |ws| == 1 {
        assert tail == gaps[1];
        if gaps[1] == [] {
          assert Tokens(tail, ws[0]) == [ws[0]];
        } else {
          TokensEndField(gaps[1], [], ws[0]);
          assert gaps[1] + [] == gaps[1];
        }
        assert ws == [ws[0]];
      } else {
        var rest := ws[1] + Layout(ws[2..], gaps[2..]);
        assert ws[1..][1..] == ws[2..] && gaps[1..][1..] == gaps[2..];
        assert tail == gaps[1] + rest;
        TokensEndField(gaps[1], rest, ws[0]);
        FieldsOfLayout(ws[1..], gaps[1..]);
        TokensSkipSpace(gaps[1], rest);
        assert ws == [ws[0]] + ws[1..];
      }
    }
  }

  // ---- Decimal numbers ----

  predicate IsDigit(c: char) {
    '0' <= c <= '9'
  }

  /** A non-empty run of decimal digits: what `std::stoul` reads in full. */
  predicate IsDecimal(s: string) {
    s != [] && forall k :: 0 <= k < |s| ==> IsDigit(s[k])
  }

  function DigitValue(c: char): (d: nat)
    requires IsDigit(c)
    ensures d < 10
  {
    c as int - '0' as int
  }

  /** The value of a run of decimal digits, most significant first. */
  function DecimalValue(s: string): nat
    requires forall k :: 0 <= k < |s| ==> IsDigit(s[k])
    decreases |s|
  {
    if s == [] then 0 else DecimalValue(s[..|s| - 1]) * 10 + DigitValue(s[|s| - 1])
  }

  /** The decimal numeral of `n`, without leading zeros. */
  function DecimalString(n: nat): string
    decreases n
  {
    if n < 10 then [('0' as int + n) as char]
    else DecimalString(n / 10) + [('0' as int + n % 10) as char]
  }

  /** Reading back the numeral of `n` gives `n`. */
  lemma {:induction false} DecimalRoundTrip(n: nat)
    ensures IsDecimal(DecimalString(n)) && NoSpace(DecimalString(n))
    ensures DecimalValue(DecimalString(n)) == n
    decreases n
  {
    var s := DecimalString(n);
    if n >= 10 {
      DecimalRoundTrip(n / 10);
      assert s[..|s| - 1] == DecimalString(n / 10);
    }
  }

  // ---- Building a request ----

  /**
   * `ConstructNewOrderFromFields`: with exactly five fields, the order id, side, symbol,
   * quantity and price in that order, the side decoded by `SideEnum::FromString` and the
   * numbers read as decimals; with any other number of fields, the default `NewOrder`.
   */
  function ConstructNewOrderFromFields(fields: seq<string>): (n: NewOrder)
    requires |fields| == 5 ==> IsDecimal(fields[3]) && IsDecimal(fields[4])
    ensures n.messageType == MessageTypeEnum.NewOrder
    ensures |fields| != 5 ==> n == DefaultNewOrder()
    ensures |fields| == 5 ==>
      && n.orderId == fields[0] && n.side == SideEnum.FromString(fields[1]) && n.symbol == fields[2]
      && n.quantity == DecimalValue(fields[3]) && n.price == DecimalValue(fields[4])
  {
    if |fields| != 5 then DefaultNewOrder()
    else NewOrder(MessageTypeEnum.NewOrder, fields[0], fields[2], SideEnum.FromString(fields[1]),
                  DecimalValue(fields[3]), DecimalValue(fields[4]))
  }

  /** The line a client types for a request: its five fields separated by spaces. */
  function RequestLine(n: NewOrder): string {
    Join([n.orderId, SideEnum.ToString(n.side), n.symbol, DecimalString(n.quantity), DecimalString(n.price)])
  }

  /** A request whose order id and symbol are words survives being written as a line, split
      by `ParseLine` and rebuilt by `ConstructNewOrderFromFields`. */
  lemma RequestRoundTrip(n: NewOrder)
    requires n.messageType == MessageTypeEnum.NewOrder
    requires n.orderId != [] && NoSpace(n.orderId) && n.symbol != [] && NoSpace(n.symbol)
    ensures var fs := Fields(RequestLine(n));
      |fs| == 5 && IsDecimal(fs[3]) && IsDecimal(fs[4]) && ConstructNewOrderFromFields(fs) == n
  {
    var sideLabel := SideEnum.ToString(n.side);
    assert NoSpace(sideLabel) && sideLabel != [] by {
      assert sideLabel == "BUY" || sideLabel == "SELL" || sideLabel == "<UNKNOWN>";
    }
    DecimalRoundTrip(n.quantity);
    DecimalRoundTrip(n.price);
    var fs := [n.orderId, sideLabel, n.symbol, DecimalString(n.quantity), DecimalString(n.price)];
    JoinThenParse(fs);
    SideEnum.FromStringToString(n.side);
  }
}
