/** cappylib/general.py: weekday numbering, the `error` message format, the ANSI colour encoder
    `aColor` and the command-line mapper `argParse`. */
module General {
  import opened Wrappers
  import opened Strings

  // enum.weekdays: Monday is 0 and Sunday is 6, the numbering of datetime.weekday().
  const MONDAY := 0
  const TUESDAY := 1
  const WEDNESDAY := 2
  const THURSDAY := 3
  const FRIDAY := 4
  const SATURDAY := 5
  const SUNDAY := 6

  /** The `error` exception's text: location, colon, type, then the messages separated by spaces. */
  function ErrorMessage(location: string, eType: string, messages: seq<string>): (msg: string)
    ensures |msg| >= |location| + |eType| + 3
    ensures msg[..|location|] == location && msg[|location|..|location| + 2] == ": "
    ensures msg[|location| + 2..|location| + 2 + |eType|] == eType && msg[|location| + 2 + |eType|] == ' '
  {
    location + ": " + eType + " " + Join(" ", messages)
  }

  /** The length of the fixed part of an error message before the messages start. */
  function ErrorPrefixLength(location: string, eType: string): nat
  {
    |location| + 2 + |eType| + 1
  }

  /** The messages of an error can be read back from its text: after the fixed prefix the text
      splits on spaces into exactly the messages, provided none of them contains a space. */
  lemma ErrorMessagesRecoverable(location: string, eType: string, messages: seq<string>)
    requires |messages| >= 1
    requires forall i :: 0 <= i < |messages| ==> ' ' !in messages[i]
    ensures var msg := ErrorMessage(location, eType, messages);
            Split(msg[ErrorPrefixLength(location, eType)..], ' ') == messages
  {
    var msg := ErrorMessage(location, eType, messages);
    assert msg[ErrorPrefixLength(location, eType)..] == Join(" ", messages);
    assert [' '] == " ";
    SplitJoin(messages, ' ');
  }

  // ---------------------------------------------------------------------------------------------
  // aColor

  /** The table of ANSI codes (`ansiColorCodes`); B and I are the background and intensity offsets. */
  function AnsiCode(token: string): Option<nat>
  {
    match token
    case "OFF" => Some(0)
    case "BOLD" => Some(1)
    case "ITALIC" => Some(3)
    case "UNDERLINE" => Some(4)
    case "BLINK" => Some(5)
    case "BLACK" => Some(30)
    case "RED" => Some(31)
    case "GREEN" => Some(32)
    case "YELLOW" => Some(33)
    case "BLUE" => Some(34)
    case "MAGENTA" => Some(35)
    case "CYAN" => Some(36)
    case "WHITE" => Some(37)
    case "B" => Some(10)
    case "I" => Some(60)
    case _ => None
  }

  predicate IsOffset(token: string) { token == "B" || token == "I" }

  /** The table value of an offset token. */
  function OffsetValue(token: string): (v: nat)
    requires IsOffset(token)
    ensures AnsiCode(token) == Some(v)
  {
    if token == "B" then 10 else 60
  }

  /** `offset + codes` on a successful result, errors passed through. */
  function Prepend(codes: seq<nat>, r: Result<seq<nat>>): Result<seq<nat>>
  {
    match r
    case Ok(rest) => Ok(codes + rest)
    case Err(e) => Err(e)
  }

  /** The codes `aColor` emits for the remaining tokens, with `offset` accumulated so far:
      an offset token adds to the offset, any other token emits its code plus the offset and
      resets it, and a token missing from the table raises KeyError. */
  function Codes(tokens: seq<string>, offset: nat): Result<seq<nat>>
    decreases |tokens|
  {
    if |tokens| == 0 then Ok([])
    else if IsOffset(tokens[0]) then Codes(tokens[1..], offset + OffsetValue(tokens[0]))
    else if AnsiCode(tokens[0]).None? then Err(KeyError(tokens[0]))
    else Prepend([offset + AnsiCode(tokens[0]).value], Codes(tokens[1..], 0))
  }

  /** The number of tokens that emit a code. */
  function CodeTokenCount(tokens: seq<string>): nat
    decreases |tokens|
  {
    if |tokens| == 0 then 0
    else (if IsOffset(tokens[0]) then 0 else 1) + CodeTokenCount(tokens[1..])
  }

  /** Exactly one code per token other than B and I. */
  lemma {:induction false} CodesCount(tokens: seq<string>, offset: nat)
    requires Codes(tokens, offset).Ok?
    ensures |Codes(tokens, offset).value| == CodeTokenCount(tokens)
    decreases |tokens|
  {
    if |tokens| > 0 {
      if IsOffset(tokens[0]) {
        CodesCount(tokens[1..], offset + OffsetValue(tokens[0]));
      } else {
        CodesCount(tokens[1..], 0);
      }
    }
  }

  /** A code token emits its table value plus exactly the offsets of the run of B/I tokens just
      before it, and the offset starts again from zero after it. */
  lemma CodeAfterOffsets(offsets: seq<string>, token: string, rest: seq<string>)
    requires forall i :: 0 <= i < |offsets| ==> IsOffset(offsets[i])
    requires AnsiCode(token).Some? && !IsOffset(token)
    ensures Codes(offsets + [token] + rest, 0)
         == Prepend([OffsetSum(offsets) + AnsiCode(token).value], Codes(rest, 0))
  {
    OffsetRun(offsets, [token] + rest, 0);
    assert offsets + [token] + rest == offsets + ([token] + rest);
    assert ([token] + rest)[1..] == rest;
  }

  function OffsetSum(offsets: seq<string>): nat
    requires forall i :: 0 <= i < |offsets| ==> IsOffset(offsets[i])
    decreases |offsets|
  {
    if |offsets| == 0 then 0 else OffsetValue(offsets[0]) + OffsetSum(offsets[1..])
  }

  lemma {:induction false} OffsetRun(offsets: seq<string>, rest: seq<string>, offset: nat)
    requires forall i :: 0 <= i < |offsets| ==> IsOffset(offsets[i])
    ensures Codes(offsets + rest, offset) == Codes(rest, offset + OffsetSum(offsets))
    decreases |offsets|
  {
    if |offsets| > 0 {
      assert (offsets + rest)[1..] == offsets[1..] + rest;
      var tokens := offsets + rest;
      assert tokens[0] == offsets[0];
      assert IsOffset(tokens[0]);
      assert tokens[1..] == offsets[1..] + rest;
      assert Codes(tokens, offset) == Codes(tokens[1..], offset + OffsetValue(offsets[0]));
      OffsetRun(offsets[1..], rest, offset + OffsetValue(offsets[0]));
      assert OffsetSum(offsets) == OffsetValue(offsets[0]) + OffsetSum(offsets[1..]);
    } else {
      assert offsets + rest == rest;
    }
  }

  /** Offset tokens at the end of the string emit nothing. */
  lemma {:induction false} TrailingOffsetEmitsNothing(tokens: seq<string>, t: string, offset: nat)
    requires IsOffset(t)
    ensures Codes(tokens + [t], offset) == Codes(tokens, offset)
    decreases |tokens|
  {
    if |tokens| == 0 {
      assert [t][1..] == [];
    } else {
      assert (tokens + [t])[1..] == tokens[1..] + [t];
      if IsOffset(tokens[0]) {
        TrailingOffsetEmitsNothing(tokens[1..], t, offset + OffsetValue(tokens[0]));
      } else if AnsiCode(tokens[0]).Some? {
        TrailingOffsetEmitsNothing(tokens[1..], t, 0);
      }
    }
  }

  const ESC: char := 27 as char

  /** `'\033[{0}m'.format(code)` */
  function AnsiSequence(code: nat): string
  {
    [ESC, '['] + NatToString(code) + "m"
  }

  /** `''.join` of the escape sequences of the codes, in order. */
  function Render(codes: seq<nat>): string
    decreases |codes|
  {
    if |codes| == 0 then "" else AnsiSequence(codes[0]) + Render(codes[1..])
  }

  /** The number of leading decimal digits of `s`. */
  function DigitRun(s: string): (n: nat)
    ensures n <= |s|
    ensures forall i :: 0 <= i < n ==> IsDigit(s[i])
    decreases |s|
  {
    if |s| > 0 && IsDigit(s[0]) then 1 + DigitRun(s[1..]) else 0
  }

  /** Reads a string of ANSI SGR sequences `ESC [ digits m` back into their codes. */
  function ParseAnsi(s: string): Option<seq<nat>>
    decreases |s|
  {
    if |s| == 0 then Some([])
    else if |s| < 2 || s[0] != ESC || s[1] != '[' then None
    else
      var n := DigitRun(s[2..]);
      if n == 0 || 2 + n >= |s| || s[2 + n] != 'm' then None
      else match ParseAnsi(s[3 + n..])
        case None => None
        case Some(rest) => Some([ParseNat(s[2..2 + n])] + rest)
  }

  lemma {:induction false} DigitRunOfDigits(digits: string, rest: string)
    requires forall i :: 0 <= i < |digits| ==> IsDigit(digits[i])
    requires |rest| > 0 && !IsDigit(rest[0])
    ensures DigitRun(digits + rest) == |digits|
    decreases |digits|
  {
    if |digits| > 0 {
      assert (digits + rest)[1..] == digits[1..] + rest;
      DigitRunOfDigits(digits[1..], rest);
    } else {
      assert digits + rest == rest;
    }
  }

  /** The rendered escape sequences decode to the codes they were made from. */
  lemma {:induction false} ParseRender(codes: seq<nat>)
    ensures ParseAnsi(Render(codes)) == Some(codes)
    decreases |codes|
  {
    if |codes| > 0 {
      var digits := NatToString(codes[0]);
      var tail := Render(codes[1..]);
      assert Render(codes) == [ESC, '['] + digits + "m" + tail;
      ParseRender(codes[1..]);
      ParseOne(digits, tail);
      ParseNatToString(codes[0]);
      assert [codes[0]] + codes[1..] == codes;
    }
  }

  /** One escape sequence in front of a string is read off as its code. */
  lemma ParseOne(digits: string, tail: string)
    requires |digits| >= 1 && forall i :: 0 <= i < |digits| ==> IsDigit(digits[i])
    ensures ParseAnsi([ESC, '['] + digits + "m" + tail)
            == match ParseAnsi(tail)
               case None => None
               case Some(rest) => Some([ParseNat(digits)] + rest)
  {
    var s := [ESC, '['] + digits + "m" + tail;
    assert s[2..] == digits + ("m" + tail);
    DigitRunOfDigits(digits, "m" + tail);
    var n := |digits|;
    assert s[2..2 + n] == digits;
    assert s[2 + n] == 'm';
    assert s[3 + n..] == tail;
  }

  /** aColor: splits the format string on ';' and emits one escape sequence per code token. */
  method AColor(codeString: string) returns (r: Result<string>)
    ensures r.Ok? <==> Codes(Split(codeString, ';'), 0).Ok?
    ensures r.Ok? ==> r.value == Render(Codes(Split(codeString, ';'), 0).value)
    ensures r.Err? ==> r == Err(Codes(Split(codeString, ';'), 0).error)
  {
    var tokens := Split(codeString, ';');
    var offset: nat := 0;
    var codes: seq<nat> := [];
    var i := 0;
    assert tokens[0..] == tokens;
    PrependNothing(Codes(tokens, 0));
    while i < |tokens|
      invariant 0 <= i <= |tokens|
      invariant Codes(tokens, 0) == Prepend(codes, Codes(tokens[i..], offset))
    {
      var c := tokens[i];
      assert tokens[i..][1..] == tokens[i + 1..];
      CodesStep(tokens[i..], offset);
      if IsOffset(c) {
        offset := offset + OffsetValue(c);
      } else {
        var code := AnsiCode(c);
        if code.None? {
          return Err(KeyError(c));
        }
        PrependTwice(codes, [offset + code.value], Codes(tokens[i + 1..], 0));
        codes := codes + [offset + code.value];
        offset := 0;
      }
      i := i + 1;
    }
    assert tokens[i..] == [];
    assert codes + [] == codes;
    r := Ok(Render(codes));
  }

  /** One token of the scan. */
  lemma CodesStep(tokens: seq<string>, offset: nat)
    requires |tokens| > 0
    ensures var t := tokens[0];
            Codes(tokens, offset)
            == if IsOffset(t) then Codes(tokens[1..], offset + OffsetValue(t))
               else if AnsiCode(t).None? then Err(KeyError(t))
               else Prepend([offset + AnsiCode(t).value], Codes(tokens[1..], 0))
  {
  }

  lemma PrependNothing(r: Result<seq<nat>>)
    ensures Prepend([], r) == r
  {
    if r.Ok? { assert [] + r.value == r.value; }
  }

  lemma PrependTwice(a: seq<nat>, b: seq<nat>, r: Result<seq<nat>>)
    ensures Prepend(a, Prepend(b, r)) == Prepend(a + b, r)
  {
    if r.Ok? {
      assert a + (b + r.value) == (a + b) + r.value;
    }
  }

  /** The sample in the module's self-test: 'BOLD;B;I;GREEN' emits bold (1) and
      background-intense green (32 + 10 + 60 = 102). */
  lemma BoldBackgroundIntenseGreen()
    ensures Codes(Split("BOLD;B;I;GREEN", ';'), 0) == Ok([1, 102])
  {
    SampleTokens();
    SampleGreen();
    var tokens := ["BOLD", "B", "I", "GREEN"];
    assert Split("BOLD;B;I;GREEN", ';') == tokens;
    assert tokens[1..] == ["B", "I", "GREEN"];
    assert AnsiCode("BOLD") == Some(1);
    assert !IsOffset("BOLD");
    assert Codes(tokens, 0) == Prepend([1], Codes(["B", "I", "GREEN"], 0));
    assert [1] + [102] == [1, 102];
  }

  lemma SampleGreen()
    ensures Codes(["B", "I", "GREEN"], 0) == Ok([102])
  {
    assert ["B", "I", "GREEN"][1..] == ["I", "GREEN"];
    assert ["I", "GREEN"][1..] == ["GREEN"];
    assert ["GREEN"][1..] == [];
    assert AnsiCode("GREEN") == Some(32);
    assert !IsOffset("GREEN");
    assert Codes(["GREEN"], 70) == Prepend([102], Codes([], 0));
    assert [102] + [] == [102];
    assert IsOffset("I") && OffsetValue("I") == 60;
    assert Codes(["I", "GREEN"], 10) == Codes(["GREEN"], 70);
    assert IsOffset("B") && OffsetValue("B") == 10;
    assert Codes(["B", "I", "GREEN"], 0) == Codes(["I", "GREEN"], 10);
  }

  lemma SampleTokens()
    ensures Split("BOLD;B;I;GREEN", ';') == ["BOLD", "B", "I", "GREEN"]
  {
    var tokens := ["BOLD", "B", "I", "GREEN"];
    assert forall i :: 0 <= i < |tokens| ==> ';' !in tokens[i];
    assert Join([';'], tokens) == "BOLD;B;I;GREEN" by {
      assert tokens[1..] == ["B", "I", "GREEN"];
      assert tokens[1..][1..] == ["I", "GREEN"];
      assert tokens[1..][1..][1..] == ["GREEN"];
    }
    SplitJoin(tokens, ';');
  }

  // ---------------------------------------------------------------------------------------------
  // argParse

  /** What argParse returns: a bool for valueSearch, a value (or None) or False for keySearch,
      the mapping, or the positional list. */
  datatype ArgResult =
    | Found(found: bool)
    | Value(v: Option<string>)
    | NotFound
    | Mapped(args: map<string, Option<string>>)
    | Positional(positional: seq<string>)

  /** The index of the first `c` in `s` at or after `from`, or |s|. */
  function IndexFrom(s: string, c: char, from: nat): (k: nat)
    requires from <= |s|
    ensures from <= k <= |s|
    ensures k < |s| ==> s[k] == c
    ensures forall j :: from <= j < k ==> s[j] != c
    decreases |s| - from
  {
    if from == |s| || s[from] == c then from else IndexFrom(s, c, from + 1)
  }

  /** The index of the first "--" in `s` at or after `from`, or |s|. */
  function DashesFrom(s: string, from: nat): (k: nat)
    requires from <= |s|
    ensures from <= k <= |s|
    ensures k < |s| ==> k + 1 < |s| && s[k] == '-' && s[k + 1] == '-'
    ensures forall j :: from <= j < k && j + 1 < |s| ==> !(s[j] == '-' && s[j + 1] == '-')
    decreases |s| - from
  {
    if from + 1 >= |s| then |s|
    else if s[from] == '-' && s[from + 1] == '-' then from
    else DashesFrom(s, from + 1)
  }

  /** The unanchored search for `--key=value`. The leftmost "--" decides: it matches iff an '='
      follows it at least one character later. The key is everything from there up to that first
      '=', and the value is the rest, less one leading quote. A later "--" cannot match when the
      leftmost one does not, since it would need an '=' even further on. */
  function KeyValue(arg: string): Option<(string, string)>
  {
    var p := DashesFrom(arg, 0);
    if p + 3 > |arg| then None
    else
      var k := IndexFrom(arg, '=', p + 3);
      if k == |arg| then None
      else
        var value := arg[k + 1..];
        Some((arg[p + 2..k], if |value| > 0 && (value[0] == '\'' || value[0] == '"') then value[1..] else value))
  }

  /** `--key=value` is found anywhere in the argument: text before the leftmost "--" is skipped,
      and one leading quote of the value is dropped. */
  lemma KeyValueUnanchored()
    ensures KeyValue("x--a='1") == Some(("a", "1"))
  {
    var arg := "x--a='1";
    assert DashesFrom(arg, 1) == 1;
    assert IndexFrom(arg, '=', 4) == 4;
    assert arg[3..4] == "a" && arg[5..] == "'1";
  }

  /** Without "--", or with nothing between "--" and the '=', there is no key. */
  lemma KeyValueNeedsKey()
    ensures KeyValue("a=1") == None && KeyValue("--=1") == None
  {
    assert DashesFrom("a=1", 0) == 3;
    assert DashesFrom("--=1", 0) == 0 && IndexFrom("--=1", '=', 3) == 4;
  }

  /** The arguments that are not `--key=value`, in order. */
  function PositionalArgs(args: seq<string>): seq<string>
    decreases |args|
  {
    if |args| == 0 then []
    else
      var init := PositionalArgs(args[..|args| - 1]);
      if KeyValue(args[|args| - 1]).Some? then init else init + [args[|args| - 1]]
  }

  /** The `--key=value` pairs; a later pair for the same key overrides an earlier one. */
  function Pairs(args: seq<string>): map<string, string>
    decreases |args|
  {
    if |args| == 0 then map[]
    else
      var init := Pairs(args[..|args| - 1]);
      match KeyValue(args[|args| - 1])
      case None => init
      case Some(kv) => init[kv.0 := kv.1]
  }

  /** `dict(zip(keys, values))`: pairs up to the shorter list, later keys overriding. */
  function ZipDict(keys: seq<string>, values: seq<string>): map<string, Option<string>>
    decreases |keys|
  {
    if |keys| == 0 || |values| == 0 then map[]
    else if |keys| <= |values| then
      ZipDict(keys[..|keys| - 1], values)[keys[|keys| - 1] := Some(values[|keys| - 1])]
    else ZipDict(keys[..|values|], values)
  }

  function AsValues(pairs: map<string, string>): map<string, Option<string>>
  {
    map k | k in pairs :: Some(pairs[k])
  }

  /** Every `--key=value` argument is missing from the positional list and its key is recorded;
      every other argument stays positional. */
  lemma {:induction false} ExtractionSplitsArgs(args: seq<string>, arg: string)
    requires arg in args
    ensures KeyValue(arg).Some? ==> arg !in PositionalArgs(args) && KeyValue(arg).value.0 in Pairs(args)
    ensures KeyValue(arg).None? ==> arg in PositionalArgs(args)
    decreases |args|
  {
    var last := args[|args| - 1];
    var init := args[..|args| - 1];
    assert args == init + [last];
    if arg in init {
      ExtractionSplitsArgs(init, arg);
    }
    if KeyValue(arg).Some? {
      if arg !in init {
        assert arg == last;
      } else {
        assert arg != last || KeyValue(last).Some?;
      }
      PositionalExcludes(args, arg);
    }
  }

  lemma {:induction false} PositionalExcludes(args: seq<string>, arg: string)
    requires KeyValue(arg).Some?
    ensures arg !in PositionalArgs(args)
    decreases |args|
  {
    if |args| > 0 {
      PositionalExcludes(args[..|args| - 1], arg);
    }
  }

  /** A key that occurs once in the key list is mapped to the value at its index, and is absent
      from the zipped dictionary when there are fewer values. */
  lemma ZipDictAt(keys: seq<string>, values: seq<string>, i: nat)
    requires i < |keys|
    requires forall j :: 0 <= j < |keys| && j != i ==> keys[j] != keys[i]
    ensures i < |values| ==> keys[i] in ZipDict(keys, values) && ZipDict(keys, values)[keys[i]] == Some(values[i])
    ensures i >= |values| ==> keys[i] !in ZipDict(keys, values)
  {
    ZipDictAtAux(keys, values, i);
  }

  lemma {:induction false} ZipDictAtAux(keys: seq<string>, values: seq<string>, i: nat)
    requires i < |keys|
    requires forall j :: 0 <= j < |keys| && j != i ==> keys[j] != keys[i]
    ensures i < |values| ==> keys[i] in ZipDict(keys, values) && ZipDict(keys, values)[keys[i]] == Some(values[i])
    ensures i >= |values| ==> keys[i] !in ZipDict(keys, values)
    decreases |keys|
  {
    if |values| == 0 {
    } else if |keys| <= |values| {
      if i < |keys| - 1 {
        ZipDictAtAux(keys[..|keys| - 1], values, i);
      }
    } else {
      if i < |values| {
        ZipDictAtAux(keys[..|values|], values, i);
      } else {
        ZipDictKeys(keys[..|values|], values);
      }
    }
  }

  lemma {:induction false} ZipDictKeys(keys: seq<string>, values: seq<string>)
    ensures forall k :: k in ZipDict(keys, values) ==> k in keys
    decreases |keys|
  {
    if |values| == 0 || |keys| == 0 {
    } else if |keys| <= |values| {
      ZipDictKeys(keys[..|keys| - 1], values);
    } else {
      ZipDictKeys(keys[..|values|], values);
    }
  }

  /** `for key in keyMap: if key not in m: m[key] = None` */
  function Defaults(m: map<string, Option<string>>, keys: seq<string>): map<string, Option<string>>
    decreases |keys|
  {
    if |keys| == 0 then m
    else
      var d := Defaults(m, keys[..|keys| - 1]);
      if keys[|keys| - 1] in d then d else d[keys[|keys| - 1] := None]
  }

  /** After the defaults every key of keyMap is present; the keys already present keep their
      value and the added ones map to None. */
  lemma {:induction false} DefaultsFill(m: map<string, Option<string>>, keys: seq<string>)
    ensures var d := Defaults(m, keys);
            (forall k :: k in d <==> k in m || k in keys) &&
            (forall k :: k in d ==> d[k] == if k in m then m[k] else None)
    decreases |keys|
  {
    if |keys| > 0 {
      DefaultsFill(m, keys[..|keys| - 1]);
      assert keys == keys[..|keys| - 1] + [keys[|keys| - 1]];
    }
  }

  lemma {:induction false} ZipDictContains(keys: seq<string>, values: seq<string>, i: nat)
    requires i < |keys| && i < |values|
    ensures keys[i] in ZipDict(keys, values)
    decreases |keys|
  {
    if |keys| <= |values| {
      if i < |keys| - 1 {
        ZipDictContains(keys[..|keys| - 1], values, i);
      }
    } else {
      ZipDictContains(keys[..|values|], values, i);
    }
  }

  /** The mapping argParse builds: '__file' and keyMap zipped with argv[0] and the positional
      arguments, the pairs merged over it, and None for every keyMap key still missing. */
  function MappedArgs(argv0: string, positional: seq<string>, pairs: map<string, string>, keyMap: seq<string>): map<string, Option<string>>
  {
    Defaults(ZipDict(["__file"] + keyMap, [argv0] + positional) + AsValues(pairs), keyMap)
  }

  /** The mapping holds '__file' and every keyMap key, and a pair's value wins over a positional one. */
  lemma MappedArgsKeys(argv0: string, positional: seq<string>, pairs: map<string, string>, keyMap: seq<string>)
    ensures var m := MappedArgs(argv0, positional, pairs, keyMap);
            "__file" in m && (forall k :: k in keyMap ==> k in m) &&
            (forall k :: k in pairs ==> k in m && m[k] == Some(pairs[k]))
  {
    var zipped := ZipDict(["__file"] + keyMap, [argv0] + positional) + AsValues(pairs);
    ZipDictContains(["__file"] + keyMap, [argv0] + positional, 0);
    assert (["__file"] + keyMap)[0] == "__file";
    assert "__file" in zipped;
    DefaultsFill(zipped, keyMap);
  }

  /** What argParse returns for argv (argv[0] being the program name). */
  function ArgParseResult(argv: seq<string>, keyMapArg: Option<seq<string>>, keySearch: Option<string>, valueSearch: Option<string>): ArgResult
    requires |argv| >= 1
  {
    var args := if |argv| > 1 then argv[1..] else [];
    var keyMap := if keyMapArg.Some? then keyMapArg.value else [];
    var positional := PositionalArgs(args);
    var pairs := Pairs(args);
    Select(positional, pairs, keyMap, MappedArgs(argv[0], positional, pairs, keyMap), keySearch, valueSearch)
  }

  /** The choice of return value once the positional list, the pairs and the mapping are known. */
  function Select(positional: seq<string>, pairs: map<string, string>, keyMap: seq<string>,
                  mapped: map<string, Option<string>>, keySearch: Option<string>, valueSearch: Option<string>): ArgResult
  {
    if valueSearch.Some? && valueSearch.value != "" then
      Found(valueSearch.value in positional || Some(valueSearch.value) in mapped.Values)
    else if keySearch.Some? && keySearch.value != "" then
      (if keySearch.value in mapped then Value(mapped[keySearch.value]) else NotFound)
    else if |keyMap| > 0 || |pairs| > 0 then Mapped(mapped)
    else Positional(positional)
  }

  /** The shape of the result: a bool for valueSearch, the value or False for a keySearch; the
      mapping when a keyMap or pairs were given, the positional list otherwise. With no keyMap and
      no search the program name never appears in the result. */
  lemma ArgParseShape(argv: seq<string>, keyMapArg: Option<seq<string>>, keySearch: Option<string>, valueSearch: Option<string>)
    requires |argv| >= 1
    ensures var r := ArgParseResult(argv, keyMapArg, keySearch, valueSearch);
            var args := if |argv| > 1 then argv[1..] else [];
            var keyMap := if keyMapArg.Some? then keyMapArg.value else [];
            var m := MappedArgs(argv[0], PositionalArgs(args), Pairs(args), keyMap);
            var valueSearched := valueSearch.Some? && valueSearch.value != "";
            var keySearched := keySearch.Some? && keySearch.value != "";
            (valueSearched <==> r.Found?) &&
            (valueSearched ==> r.found == (valueSearch.value in PositionalArgs(args) || Some(valueSearch.value) in m.Values)) &&
            (r.Value? || r.NotFound? ==> keySearched) &&
            (!valueSearched && keySearched ==>
               r == if keySearch.value in m then Value(m[keySearch.value]) else NotFound) &&
            (!valueSearched && !keySearched && (|keyMap| > 0 || |Pairs(args)| > 0) ==> r == Mapped(m)) &&
            (r.Positional? ==> r.positional == PositionalArgs(args) && Pairs(args) == map[] && keyMap == [])
  {
  }

  /** argParse with argv passed in (argv[0] is the program name). */
  method ArgParse(argv: seq<string>, keyMapArg: Option<seq<string>>, keySearch: Option<string>, valueSearch: Option<string>)
    returns (r: ArgResult)
    requires |argv| >= 1
    ensures r == ArgParseResult(argv, keyMapArg, keySearch, valueSearch)
  {
    var args := if |argv| > 1 then argv[1..] else [];
    var keyMap := if keyMapArg.Some? then keyMapArg.value else [];
    var positional, pairs := ExtractPairs(args);
    var mapped := ZipDict(["__file"] + keyMap, [argv[0]] + positional) + AsValues(pairs);
    mapped := FillDefaults(mapped, keyMap);
    assert mapped == MappedArgs(argv[0], positional, pairs, keyMap);
    if valueSearch.Some? && valueSearch.value != "" {
      r := Found(valueSearch.value in positional || Some(valueSearch.value) in mapped.Values);
    } else if keySearch.Some? && keySearch.value != "" {
      r := if keySearch.value in mapped then Value(mapped[keySearch.value]) else NotFound;
    } else {
      r := if |keyMap| > 0 || |pairs| > 0 then Mapped(mapped) else Positional(positional);
    }
    assert r == Select(positional, pairs, keyMap, mapped, keySearch, valueSearch);
  }

  /** The loop over a copy of the arguments that removes each `--key=value` from the positional
      list and records it in the pairs. */
  method ExtractPairs(args: seq<string>) returns (positional: seq<string>, pairs: map<string, string>)
    ensures positional == PositionalArgs(args)
    ensures pairs == Pairs(args)
  {
    positional, pairs := [], map[];
    var i := 0;
    while i < |args|
      invariant 0 <= i <= |args|
      invariant positional == PositionalArgs(args[..i])
      invariant pairs == Pairs(args[..i])
    {
      assert args[..i + 1][..i] == args[..i];
      var kv := KeyValue(args[i]);
      if kv.Some? {
        pairs := pairs[kv.value.0 := kv.value.1];
      } else {
        positional := positional + [args[i]];
      }
      i := i + 1;
    }
    assert args[..i] == args;
  }

  /** The loop that gives every keyMap key missing from the mapping the value None. */
  method FillDefaults(m: map<string, Option<string>>, keyMap: seq<string>) returns (mapped: map<string, Option<string>>)
    ensures mapped == Defaults(m, keyMap)
  {
    mapped := m;
    var j := 0;
    while j < |keyMap|
      invariant 0 <= j <= |keyMap|
      invariant mapped == Defaults(m, keyMap[..j])
    {
      assert keyMap[..j + 1][..j] == keyMap[..j];
      if keyMap[j] !in mapped {
        mapped := mapped[keyMap[j] := None];
      }
      j := j + 1;
    }
    assert keyMap[..j] == keyMap;
  }
}
