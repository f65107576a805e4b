/** The XML property-list reader: a recursive descent over a fixed set of tags, shown to read back
    whatever a canonical printer writes. */
module XmlPlist {
  import opened Words
  import opened ByteText
  import Plist = BinaryPlist

  datatype XmlError = Expected(tag: string) | Unterminated(tag: string) | UnexpectedElement

  /** The standard library's readings of number and data text, which may be any functions. */
  datatype Std = Std(integer: string -> i64, number: string -> seq<byte>, data: string -> seq<byte>)

  // ---- text ------------------------------------------------------------------------------------------------------

  predicate IsAsciiSpace(c: char) {
    c == ' ' || c == '\t' || c == '\n' || c == '\U{000C}' || c == '\r'
  }

  function SkipWs(s: string): (r: string)
    ensures |r| <= |s|
    ensures r != "" ==> !IsAsciiSpace(r[0])
  {
    if s != "" && IsAsciiSpace(s[0]) then SkipWs(s[1..]) else s
  }

  /** `find`: where the needle first occurs. */
  function Find(s: string, needle: string): (r: Option<nat>)
    ensures r.Some? ==> r.value + |needle| <= |s|
  {
    if StartsWith(s, needle) then Some(0)
    else if s == "" then None
    else match Find(s[1..], needle)
      case Some(p) => Some(p + 1)
      case None => None
  }

  function AdvancePast(s: string, end: string): (r: string)
    ensures |r| <= |s|
    ensures end != "" && s != "" ==> |r| < |s|
  {
    match Find(s, end)
    case Some(p) => s[p + |end|..]
    case None => ""
  }

  /** `str::replace`: occurrences that do not overlap, from the left. */
  function Replace(s: string, pat: string, with: string): string
    requires pat != ""
  {
    if StartsWith(s, pat) then with + Replace(s[|pat|..], pat, with)
    else if s == "" then ""
    else [s[0]] + Replace(s[1..], pat, with)
  }

  function Unescape(s: string): string {
    Replace(Replace(Replace(Replace(Replace(s, "&lt;", "<"), "&gt;", ">"), "&quot;", "\""), "&apos;", "'"), "&amp;", "&")
  }

  // ---- escaping ----------------------------------------------------------------------------------------------------

  const SPECIAL: string := "<>\"'&"

  /** The predefined entity of a special character. */
  function Entity(c: char): string {
    if c == '<' then "&lt;"
    else if c == '>' then "&gt;"
    else if c == '"' then "&quot;"
    else if c == '\'' then "&apos;"
    else "&amp;"
  }

  /** Escapes the characters of `which` and leaves all others. */
  function EscapeOnly(s: string, which: string): string {
    if s == "" then ""
    else (if s[0] in which then Entity(s[0]) else [s[0]]) + EscapeOnly(s[1..], which)
  }

  function Escape(s: string): string {
    EscapeOnly(s, SPECIAL)
  }

  lemma EntityShape(c: char)
    requires c in SPECIAL
    ensures 4 <= |Entity(c)| && Entity(c)[0] == '&' && '&' !in Entity(c)[1..] && '<' !in Entity(c)
  {
  }

  /** No entity begins another. */
  lemma {:induction false} EntitiesDiffer(c: char, d: char, rest: string)
    requires c in SPECIAL && d in SPECIAL && c != d
    ensures !StartsWith(Entity(d) + rest, Entity(c))
  {
    var t := Entity(d) + rest;
    assert t[1] == Entity(d)[1] && t[2] == Entity(d)[2];
  }

  /** Text without an ampersand is copied up to where it ends. */
  lemma {:induction false} CopiesPlain(head: string, rest: string, pat: string, with: string)
    requires pat != "" && pat[0] == '&' && '&' !in head
    ensures Replace(head + rest, pat, with) == head + Replace(rest, pat, with)
  {
    if head == "" {
      assert head + rest == rest;
    } else {
      var s := head + rest;
      assert s[0] == head[0] && s[1..] == head[1..] + rest;
      CopiesPlain(head[1..], rest, pat, with);
      assert [head[0]] + (head[1..] + Replace(rest, pat, with)) == head + Replace(rest, pat, with);
    }
  }

  lemma {:induction false} ReplaceHit(s: string, pat: string, with: string)
    requires pat != "" && StartsWith(s, pat)
    ensures Replace(s, pat, with) == with + Replace(s[|pat|..], pat, with)
  {
  }

  lemma {:induction false} ReplaceMiss(s: string, pat: string, with: string)
    requires pat != "" && !StartsWith(s, pat) && s != ""
    ensures Replace(s, pat, with) == [s[0]] + Replace(s[1..], pat, with)
  {
  }

  lemma {:induction false} RestoreEntity(d: char, rest: string, c: char)
    requires c in SPECIAL && d in SPECIAL
    ensures Entity(c) != ""
    ensures Replace(Entity(d) + rest, Entity(c), [c])
            == (if d == c then [c] else Entity(d)) + Replace(rest, Entity(c), [c])
  {
    hide Entity, Replace, StartsWith;
    EntityShape(c);
    EntityShape(d);
    var e := Entity(d);
    var s := e + rest;
    if d == c {
      Begins(e, rest);
      ReplaceHit(s, e, [c]);
    } else {
      EntitiesDiffer(c, d, rest);
      ReplaceMiss(s, Entity(c), [c]);
      assert s[1..] == e[1..] + rest && e == ['&'] + e[1..];
      CopiesPlain(e[1..], rest, Entity(c), [c]);
      assert ['&'] + (e[1..] + Replace(rest, Entity(c), [c])) == e + Replace(rest, Entity(c), [c]);
    }
  }

  /** Replacing one entity by its character undoes the escaping of that character alone, as long as
      ampersands are still escaped or are the ones being restored. */
  lemma {:induction false} RestoreOne(s: string, which: string, left: string, c: char)
    requires c in SPECIAL && (forall d :: d in which ==> d in SPECIAL) && c in which && '&' in which
    requires forall d :: d in left <==> d in which && d != c
    ensures Entity(c) != "" && Replace(EscapeOnly(s, which), Entity(c), [c]) == EscapeOnly(s, left)
    decreases |s|
  {
    EntityShape(c);
    if s == "" {
      EmptyReplace(Entity(c), [c]);
    } else {
      hide Entity, EscapeOnly, Replace;
      var rest := EscapeOnly(s[1..], which);
      RestoreOne(s[1..], which, left, c);
      EscapesTo(s, which);
      EscapesTo(s, left);
      if s[0] in which {
        RestoreEntity(s[0], rest, c);
      } else {
        CopiesPlain([s[0]], rest, Entity(c), [c]);
      }
    }
  }

  lemma {:induction false} EmptyReplace(pat: string, with: string)
    requires pat != ""
    ensures Replace("", pat, with) == ""
  {
  }

  lemma {:induction false} EscapesTo(s: string, which: string)
    requires s != ""
    ensures EscapeOnly(s, which)
            == (if s[0] in which then Entity(s[0]) else [s[0]]) + EscapeOnly(s[1..], which)
  {
  }

  lemma {:induction false} EscapeNothing(s: string)
    ensures EscapeOnly(s, "") == s
  {
    if s != "" { EscapeNothing(s[1..]); }
  }

  /** Unescaping undoes escaping of the five predefined entities, on every string. */
  lemma {:induction false} UnescapeEscape(s: string)
    ensures Unescape(Escape(s)) == s
  {
    hide EscapeOnly, Replace;
    assert Entity('<') == "&lt;" && Entity('>') == "&gt;" && Entity('"') == "&quot;" && Entity('\'') == "&apos;";
    assert Entity('&') == "&amp;";
    RestoreOne(s, SPECIAL, ">\"'&", '<');
    RestoreOne(s, ">\"'&", "\"'&", '>');
    RestoreOne(s, "\"'&", "'&", '"');
    RestoreOne(s, "'&", "&", '\'');
    RestoreOne(s, "&", "", '&');
    EscapeNothing(s);
  }

  /** The ampersand has to come last: restored first, it turns an escaped `&lt;` into a bracket. */
  lemma AmpersandFirstIsWrong()
    ensures Escape("&lt;") == "&amp;lt;"
    ensures Replace(Replace("&amp;lt;", "&amp;", "&"), "&lt;", "<") == "<"
  {
    hide Replace;
    EscapesTo("&lt;", SPECIAL);
    assert "&lt;"[1..] == "lt;";
    EscapePlain("lt;");
    RestoreEntity('&', "lt;", '&');
    CopiesPlain("lt;", "", "&amp;", "&");
    EmptyReplace("&amp;", "&");
    assert "lt;" + "" == "lt;" && "&" + "lt;" == "&lt;";
    RestoreEntity('<', "", '<');
    EmptyReplace("&lt;", "<");
    assert "&lt;" + "" == "&lt;" && "&amp;" + "lt;" == "&amp;lt;";
  }

  lemma {:induction false} EscapePlain(s: string)
    requires forall k :: 0 <= k < |s| ==> s[k] !in SPECIAL
    ensures Escape(s) == s
  {
    if s != "" { EscapePlain(s[1..]); }
  }

  lemma {:induction false} EscapedHasNoBracket(s: string)
    ensures '<' !in Escape(s)
    decreases |s|
  {
    if s != "" {
      EscapedHasNoBracket(s[1..]);
      if s[0] in SPECIAL { EntityShape(s[0]); }
      hide Entity;
      EscapesTo(s, SPECIAL);
    }
  }

  // ---- the reader as functions of what is left to read ---------------------------------------------------------------

  const DICT: string := "<dict>"
  const DICT_END: string := "</dict>"
  const ARRAY: string := "<array>"
  const ARRAY_END: string := "</array>"
  const STRING: string := "<string>"
  const STRING_END: string := "</string>"
  const INTEGER: string := "<integer>"
  const INTEGER_END: string := "</integer>"
  const REAL: string := "<real>"
  const REAL_END: string := "</real>"
  const DATA: string := "<data>"
  const DATA_END: string := "</data>"
  const KEY: string := "<key>"
  const KEY_END: string := "</key>"
  const TRUE: string := "<true/>"
  const FALSE: string := "<false/>"

  /** `text_element`: the unescaped text between a tag that is there and its closing tag. */
  function TextElement(s: string, open: string, close: string): (r: Result<(string, string), XmlError>)
    requires StartsWith(s, open) && open != ""
    ensures r.Ok? ==> |r.value.1| < |s|
  {
    var body := s[|open|..];
    match Find(body, close)
    case None => Err(Unterminated(close))
    case Some(end) => Ok((Unescape(body[..end]), body[end + |close|..]))
  }

  /** `value`. */
  function ReadValue(std: Std, text: string): (r: Result<(Plist.Value, string), XmlError>)
    ensures r.Ok? ==> |r.value.1| < |text|
    decreases |text|, 0
  {
    var s := SkipWs(text);
    if StartsWith(s, DICT) then
      var r :- ReadEntries(std, s[|DICT|..], map[]);
      Ok((Plist.Dict(r.0), r.1))
    else if StartsWith(s, ARRAY) then
      var r :- ReadItems(std, s[|ARRAY|..], []);
      Ok((Plist.Array(r.0), r.1))
    else if StartsWith(s, STRING) then
      var r :- TextElement(s, STRING, STRING_END);
      Ok((Plist.Text(r.0), r.1))
    else if StartsWith(s, INTEGER) then
      var r :- TextElement(s, INTEGER, INTEGER_END);
      Ok((Plist.Integer(std.integer(r.0)), r.1))
    else if StartsWith(s, REAL) then
      var r :- TextElement(s, REAL, REAL_END);
      Ok((Plist.Real(std.number(r.0)), r.1))
    else if StartsWith(s, TRUE) then Ok((Plist.Flag(true), s[|TRUE|..]))
    else if StartsWith(s, FALSE) then Ok((Plist.Flag(false), s[|FALSE|..]))
    else if StartsWith(s, DATA) then
      var r :- TextElement(s, DATA, DATA_END);
      Ok((Plist.Data(std.data(r.0)), r.1))
    else Err(UnexpectedElement)
  }

  /** The loop of `parse_dict`. */
  function ReadEntries(std: Std, text: string, acc: map<string, Plist.Value>)
    : (r: Result<(map<string, Plist.Value>, string), XmlError>)
    ensures r.Ok? ==> |r.value.1| < |text|
    decreases |text|, 1
  {
    var s := SkipWs(text);
    if StartsWith(s, DICT_END) then Ok((acc, s[|DICT_END|..]))
    else if !StartsWith(s, KEY) then Err(Expected(KEY))
    else
      var key :- TextElement(s, KEY, KEY_END);
      var val :- ReadValue(std, key.1);
      ReadEntries(std, val.1, acc[key.0 := val.0])
  }

  /** The loop of `parse_array`. */
  function ReadItems(std: Std, text: string, acc: seq<Plist.Value>)
    : (r: Result<(seq<Plist.Value>, string), XmlError>)
    ensures r.Ok? ==> |r.value.1| < |text|
    decreases |text|, 1
  {
    var s := SkipWs(text);
    if StartsWith(s, ARRAY_END) then Ok((acc, s[|ARRAY_END|..]))
    else
      var item :- ReadValue(std, s);
      ReadItems(std, item.1, acc + [item.0])
  }

  /** `skip_prologue`: declarations, comments and document types before the first element. */
  function SkipPrologue(text: string): (r: string)
    ensures |r| <= |text|
    decreases |text|
  {
    var s := SkipWs(text);
    if StartsWith(s, "<?") then SkipPrologue(AdvancePast(s, "?>"))
    else if StartsWith(s, "<!--") then SkipPrologue(AdvancePast(s, "-->"))
    else if StartsWith(s, "<!") then SkipPrologue(AdvancePast(s, ">"))
    else s
  }

  /** `xml::parse`: anything after the first value is ignored. */
  function ReadPlist(std: Std, text: string): (r: Result<Plist.Value, XmlError>) {
    var s := SkipWs(SkipPrologue(text));
    if !StartsWith(s, "<plist") then Err(Expected("plist"))
    else
      var r :- ReadValue(std, AdvancePast(s, ">"));
      Ok(r.0)
  }

  // ---- the reader object ---------------------------------------------------------------------------------------------

  class Parser {
    const s: string
    const std: Std
    var i: nat

    ghost predicate Valid()
      reads this
    {
      i <= |s|
    }

    /** What is left to read. */
    function Rest(): string
      reads this
      requires Valid()
    {
      s[i..]
    }

    constructor (std: Std, s: string)
      ensures this.s == s && this.std == std && Valid() && Rest() == s
    {
      this.s, this.std, i := s, std, 0;
    }

    method SkipSpaces()
      requires Valid()
      modifies this
      ensures Valid() && Rest() == SkipWs(old(Rest()))
    {
      while i < |s| && IsAsciiSpace(s[i])
        invariant Valid() && SkipWs(Rest()) == SkipWs(old(Rest()))
      {
        assert Rest()[1..] == s[i + 1..];
        i := i + 1;
      }
    }

    method Consume(n: nat)
      requires Valid() && n <= |Rest()|
      modifies this
      ensures Valid() && Rest() == old(Rest())[n..]
    {
      i := i + n;
    }

    method PassOver(end: string)
      requires Valid()
      modifies this
      ensures Valid() && Rest() == AdvancePast(old(Rest()), end)
    {
      var pos := Find(Rest(), end);
      if pos.Some? {
        i := i + pos.value + |end|;
      } else {
        i := |s|;
      }
    }

    method PassPrologue()
      requires Valid()
      modifies this
      ensures Valid() && Rest() == SkipPrologue(old(Rest()))
    {
      hide StartsWith, AdvancePast, SkipWs;
      while true
        invariant Valid() && SkipPrologue(Rest()) == SkipPrologue(old(Rest()))
        decreases |s| - i
      {
        ghost var here := Rest();
        SkipSpaces();
        NotStarted(Rest());
        if StartsWith(Rest(), "<?") {
          PassOver("?>");
        } else if StartsWith(Rest(), "<!--") {
          PassOver("-->");
        } else if StartsWith(Rest(), "<!") {
          PassOver(">");
        } else {
          return;
        }
      }
    }

    method ReadText(open: string, close: string) returns (r: Result<string, XmlError>)
      requires Valid() && StartsWith(Rest(), open) && open != ""
      modifies this
      ensures Valid()
      ensures match TextElement(old(Rest()), open, close)
              case Ok(t) => r == Ok(t.0) && Rest() == t.1
              case Err(e) => r == Err(e)
    {
      hide Unescape, Find;
      i := i + |open|;
      var rest := Rest();
      var end := Find(rest, close);
      if end.None? { return Err(Unterminated(close)); }
      var raw := rest[..end.value];
      i := i + end.value + |close|;
      r := Ok(Unescape(raw));
    }

    method Value() returns (r: Result<Plist.Value, XmlError>)
      requires Valid()
      modifies this
      ensures Valid()
      ensures match ReadValue(std, old(Rest()))
              case Ok(t) => r == Ok(t.0) && Rest() == t.1
              case Err(e) => r == Err(e)
      decreases |s| - i, 0
    {
      hide StartsWith, TextElement, SkipWs;
      SkipSpaces();
      NotStarted(Rest());
      if StartsWith(Rest(), DICT) {
        Consume(|DICT|);
        r := Entries();
      } else if StartsWith(Rest(), ARRAY) {
        Consume(|ARRAY|);
        r := Items();
      } else if StartsWith(Rest(), STRING) {
        var t := ReadText(STRING, STRING_END);
        r := if t.Ok? then Ok(Plist.Text(t.value)) else Err(t.error);
      } else if StartsWith(Rest(), INTEGER) {
        var t := ReadText(INTEGER, INTEGER_END);
        r := if t.Ok? then Ok(Plist.Integer(std.integer(t.value))) else Err(t.error);
      } else if StartsWith(Rest(), REAL) {
        var t := ReadText(REAL, REAL_END);
        r := if t.Ok? then Ok(Plist.Real(std.number(t.value))) else Err(t.error);
      } else if StartsWith(Rest(), TRUE) {
        Consume(|TRUE|);
        r := Ok(Plist.Flag(true));
      } else if StartsWith(Rest(), FALSE) {
        Consume(|FALSE|);
        r := Ok(Plist.Flag(false));
      } else if StartsWith(Rest(), DATA) {
        var t := ReadText(DATA, DATA_END);
        r := if t.Ok? then Ok(Plist.Data(std.data(t.value))) else Err(t.error);
      } else {
        r := Err(UnexpectedElement);
      }
    }

    method Entries() returns (r: Result<Plist.Value, XmlError>)
      requires Valid()
      modifies this
      ensures Valid()
      ensures match ReadEntries(std, old(Rest()), map[])
              case Ok(t) => r == Ok(Plist.Dict(t.0)) && Rest() == t.1
              case Err(e) => r == Err(e)
      decreases |s| - i, 1
    {
      hide StartsWith, TextElement, SkipWs, ReadValue;
      var out: map<string, Plist.Value> := map[];
      while true
        invariant Valid() && old(i) <= i
        invariant ReadEntries(std, Rest(), out) == ReadEntries(std, old(Rest()), map[])
        decreases |s| - i
      {
        SkipSpaces();
        NotStarted(Rest());
        if StartsWith(Rest(), DICT_END) {
          Consume(|DICT_END|);
          return Ok(Plist.Dict(out));
        }
        if !StartsWith(Rest(), KEY) { return Err(Expected(KEY)); }
        var key := ReadText(KEY, KEY_END);
        if key.Err? { return Err(key.error); }
        var val := Value();
        if val.Err? { return Err(val.error); }
        out := out[key.value := val.value];
      }
    }

    method Items() returns (r: Result<Plist.Value, XmlError>)
      requires Valid()
      modifies this
      ensures Valid()
      ensures match ReadItems(std, old(Rest()), [])
              case Ok(t) => r == Ok(Plist.Array(t.0)) && Rest() == t.1
              case Err(e) => r == Err(e)
      decreases |s| - i, 1
    {
      hide StartsWith, SkipWs, ReadValue;
      var out: seq<Plist.Value> := [];
      while true
        invariant Valid() && old(i) <= i
        invariant ReadItems(std, Rest(), out) == ReadItems(std, old(Rest()), [])
        decreases |s| - i
      {
        SkipSpaces();
        NotStarted(Rest());
        if StartsWith(Rest(), ARRAY_END) {
          Consume(|ARRAY_END|);
          return Ok(Plist.Array(out));
        }
        var item := Value();
        if item.Err? { return Err(item.error); }
        out := out + [item.value];
      }
    }

    method Parse() returns (r: Result<Plist.Value, XmlError>)
      requires Valid()
      modifies this
      ensures r == ReadPlist(std, old(Rest()))
    {
      hide StartsWith, SkipWs, ReadValue, AdvancePast, SkipPrologue;
      PassPrologue();
      SkipSpaces();
      if !StartsWith(Rest(), "<plist") { return Err(Expected("plist")); }
      PassOver(">");
      r := Value();
    }
  }

  /** A tag that is there is not longer than what is left. */
  lemma {:induction false} NotStarted(s: string)
    ensures forall tag: string :: StartsWith(s, tag) ==> |tag| <= |s|
  {
  }

  // ---- the canonical printer ---------------------------------------------------------------------------------------

  /** What can be printed; a dictionary may list a key more than once. */
  datatype Tree = Truth(b: bool) | Str(x: string) | Arr(items: seq<Tree>) | Dic(keys: seq<string>, vals: seq<Tree>)

  function Element(t: Tree, pad: string): string
    decreases t
  {
    match t
    case Truth(b) => if b then TRUE else FALSE
    case Str(x) => STRING + (Escape(x) + (STRING_END + ""))
    case Arr(items) => ARRAY + (Elements(items, pad) + (pad + ARRAY_END))
    case Dic(keys, vals) => DICT + (Pairs(keys, vals, pad) + (pad + DICT_END))
  }

  /** The elements one after the other, each after the padding. */
  function Elements(ts: seq<Tree>, pad: string): string
    decreases ts
  {
    if ts == [] then "" else pad + (Element(ts[0], pad) + Elements(ts[1..], pad))
  }

  function Pairs(keys: seq<string>, vals: seq<Tree>, pad: string): string
    decreases vals
  {
    if keys == [] || vals == [] then ""
    else
      pad + (KEY + (Escape(keys[0]) + (KEY_END + (pad + (Element(vals[0], pad) + Pairs(keys[1..], vals[1..], pad))))))
  }

  function Meaning(t: Tree): Plist.Value
    decreases t
  {
    match t
    case Truth(b) => Plist.Flag(b)
    case Str(x) => Plist.Text(x)
    case Arr(items) => Plist.Array(Meanings(items))
    case Dic(keys, vals) => Plist.Dict(Bound(map[], keys, vals))
  }

  function Meanings(ts: seq<Tree>): seq<Plist.Value>
    decreases ts
  {
    if ts == [] then [] else [Meaning(ts[0])] + Meanings(ts[1..])
  }

  function Bound(acc: map<string, Plist.Value>, keys: seq<string>, vals: seq<Tree>): map<string, Plist.Value>
    decreases vals
  {
    if keys == [] || vals == [] then acc else Bound(acc[keys[0] := Meaning(vals[0])], keys[1..], vals[1..])
  }

  ghost predicate Blank(pad: string) {
    forall k :: 0 <= k < |pad| ==> pad[k] in {' ', '\t', '\n', '\U{000C}', '\r'}
  }

  // ---- reading back ---------------------------------------------------------------------------------------------------

  lemma {:induction false} SkipsPad(pad: string, s: string)
    requires Blank(pad) && (s != "" ==> !IsAsciiSpace(s[0]))
    ensures SkipWs(pad + s) == s
  {
    if pad == "" {
      assert pad + s == s;
    } else {
      assert (pad + s)[0] == pad[0] && (pad + s)[1..] == pad[1..] + s;
      SkipsPad(pad[1..], s);
    }
  }

  lemma {:induction false} Begins(tag: string, rest: string)
    ensures StartsWith(tag + rest, tag) && (tag + rest)[|tag|..] == rest
  {
    assert (tag + rest)[..|tag|] == tag;
  }

  lemma {:induction false} Differs(s: string, tag: string, k: nat)
    requires k < |s| && k < |tag| && s[k] != tag[k]
    ensures !StartsWith(s, tag)
  {
  }

  /** Past text that cannot begin the needle, the needle is found where it stands. */
  lemma {:induction false} FindsPast(head: string, needle: string, rest: string)
    requires needle != "" && needle[0] !in head
    ensures Find(head + (needle + rest), needle) == Some(|head|)
  {
    var s := head + (needle + rest);
    if head == "" {
      assert s == needle + rest;
      Begins(needle, rest);
    } else {
      assert s[0] == head[0] && s[1..] == head[1..] + (needle + rest);
      assert s[0] in head;
      Differs(s, needle, 0);
      FindsPast(head[1..], needle, rest);
    }
  }

  /** Escaped text between tags is read back. */
  lemma {:induction false} ReadsText(open: string, x: string, close: string, rest: string)
    requires open != "" && close != "" && close[0] == '<'
    ensures StartsWith(open + (Escape(x) + (close + rest)), open)
    ensures TextElement(open + (Escape(x) + (close + rest)), open, close) == Ok((x, rest))
  {
    hide Find, Escape, Unescape, StartsWith;
    var body := Escape(x) + (close + rest);
    Begins(open, body);
    EscapedHasNoBracket(x);
    FindsPast(Escape(x), close, rest);
    assert body[..|Escape(x)|] == Escape(x) && body[|Escape(x)| + |close|..] == rest;
    UnescapeEscape(x);
  }

  /** The first characters of the opening tags tell them apart. */
  lemma {:induction false} Dispatch(s: string)
    requires |s| > 5 && s[0] == '<'
    ensures !IsAsciiSpace(s[0])
    ensures s[1] != 'd' ==> !StartsWith(s, DICT) && !StartsWith(s, DATA)
    ensures s[1] != 'a' ==> !StartsWith(s, ARRAY)
    ensures s[1] != 's' ==> !StartsWith(s, STRING)
    ensures s[1] != 'i' ==> !StartsWith(s, INTEGER)
    ensures s[1] != 'r' ==> !StartsWith(s, REAL)
    ensures s[1] != 't' ==> !StartsWith(s, TRUE)
    ensures s[1] != 'f' ==> !StartsWith(s, FALSE)
    ensures s[1] != 'k' ==> !StartsWith(s, KEY)
    ensures s[1] != '/' ==> !StartsWith(s, ARRAY_END) && !StartsWith(s, DICT_END)
  {
    hide StartsWith;
    if s[1] != 'd' { Differs(s, DICT, 1); Differs(s, DATA, 1); }
    if s[1] != 'a' { Differs(s, ARRAY, 1); }
    if s[1] != 's' { Differs(s, STRING, 1); }
    if s[1] != 'i' { Differs(s, INTEGER, 1); }
    if s[1] != 'r' { Differs(s, REAL, 1); }
    if s[1] != 't' { Differs(s, TRUE, 1); }
    if s[1] != 'f' { Differs(s, FALSE, 1); }
    if s[1] != 'k' { Differs(s, KEY, 1); }
    if s[1] != '/' { Differs(s, ARRAY_END, 1); Differs(s, DICT_END, 1); }
  }

  lemma {:induction false} ElementShape(t: Tree, pad: string, rest: string)
    ensures var s := Element(t, pad) + rest;
            |s| > 5 && s[0] == '<' && s[1] != '/' && s[1] != 'k'
            && s[1] == match t case Truth(b) => (if b then 't' else 'f') case Str(_) => 's' case Arr(_) => 'a' case Dic(_, _) => 'd'
  {
    hide Elements, Pairs, Escape;
  }

  /** Reading back one printed element, whatever follows it. */
  lemma {:induction false} ReadsElement(std: Std, t: Tree, pad: string, rest: string)
    requires Blank(pad) && Sized(t)
    ensures ReadValue(std, Element(t, pad) + rest) == Ok((Meaning(t), rest))
    decreases t, 1, 0
  {
    hide StartsWith, TextElement, Escape, Blank, SkipWs, Elements, Pairs, Meanings, Bound, ReadItems, ReadEntries;
    var s := Element(t, pad) + rest;
    ElementShape(t, pad, rest);
    Dispatch(s);
    SkipsPad("", s);
    assert "" + s == s;
    match t
    case Truth(b) =>
      Begins(if b then TRUE else FALSE, rest);
    case Str(x) =>
      assert s == STRING + (Escape(x) + (STRING_END + rest));
      ReadsText(STRING, x, STRING_END, rest);
    case Arr(items) =>
      var tail := Elements(items, pad) + (pad + (ARRAY_END + rest));
      assert s == ARRAY + tail;
      Begins(ARRAY, tail);
      ReadsItems(std, t, 0, pad, rest, []);
      assert items[0..] == items && [] + Meanings(items) == Meanings(items);
    case Dic(keys, vals) =>
      var tail := Pairs(keys, vals, pad) + (pad + (DICT_END + rest));
      assert s == DICT + tail;
      Begins(DICT, tail);
      ReadsPairs(std, t, 0, pad, rest, map[]);
      assert keys[0..] == keys && vals[0..] == vals;
  }

  /** Dictionaries list as many keys as values. */
  ghost predicate Sized(t: Tree)
    decreases t
  {
    match t
    case Arr(items) => forall k :: 0 <= k < |items| ==> Sized(items[k])
    case Dic(keys, vals) => |keys| == |vals| && forall k :: 0 <= k < |vals| ==> Sized(vals[k])
    case _ => true
  }

  lemma {:induction false} ClosesList(pad: string, close: string, rest: string)
    requires Blank(pad) && close != "" && close[0] == '<'
    ensures SkipWs(pad + (close + rest)) == close + rest && StartsWith(close + rest, close)
    ensures (close + rest)[|close|..] == rest
  {
    SkipsPad(pad, close + rest);
    Begins(close, rest);
  }

  lemma {:induction false} ReadsItems(std: Std, t: Tree, i: nat, pad: string, rest: string, acc: seq<Plist.Value>)
    requires t.Arr? && i <= |t.items| && Blank(pad) && Sized(t)
    ensures ReadItems(std, Elements(t.items[i..], pad) + (pad + (ARRAY_END + rest)), acc)
            == Ok((acc + Meanings(t.items[i..]), rest))
    decreases t, 0, |t.items| - i
  {
    hide StartsWith, ReadValue, SkipWs, Element, Blank, Meaning;
    var ts := t.items[i..];
    var close := pad + (ARRAY_END + rest);
    var s := Elements(ts, pad) + close;
    if ts == [] {
      assert s == close;
      ClosesList(pad, ARRAY_END, rest);
      assert acc + [] == acc;
    } else {
      assert ts[0] == t.items[i] && ts[1..] == t.items[i + 1..];
      var tail := Elements(ts[1..], pad) + close;
      var here := Element(ts[0], pad) + tail;
      assert s == pad + here;
      ElementShape(ts[0], pad, tail);
      Dispatch(here);
      SkipsPad(pad, here);
      ReadsElement(std, ts[0], pad, tail);
      ReadsItems(std, t, i + 1, pad, rest, acc + [Meaning(ts[0])]);
      assert acc + [Meaning(ts[0])] + Meanings(ts[1..]) == acc + ([Meaning(ts[0])] + Meanings(ts[1..]));
    }
  }

  lemma {:induction false} EntriesStep(
    std: Std, text: string, s: string, key: (string, string), val: (Plist.Value, string),
    acc: map<string, Plist.Value>
  )
    requires SkipWs(text) == s && !StartsWith(s, DICT_END) && StartsWith(s, KEY)
    requires TextElement(s, KEY, KEY_END) == Ok(key) && ReadValue(std, key.1) == Ok(val)
    ensures ReadEntries(std, text, acc) == ReadEntries(std, val.1, acc[key.0 := val.0])
  {
    hide StartsWith, ReadValue, SkipWs, TextElement;
  }

  lemma {:induction false} EntriesEnd(std: Std, text: string, s: string, acc: map<string, Plist.Value>)
    requires SkipWs(text) == s && StartsWith(s, DICT_END) && |s| >= |DICT_END|
    ensures ReadEntries(std, text, acc) == Ok((acc, s[|DICT_END|..]))
  {
    hide ReadValue, SkipWs, TextElement;
  }

  lemma {:induction false} ReadsPairs(std: Std, t: Tree, i: nat, pad: string, rest: string,
                                      acc: map<string, Plist.Value>)
    requires t.Dic? && i <= |t.vals| && Blank(pad) && Sized(t)
    ensures ReadEntries(std, Pairs(t.keys[i..], t.vals[i..], pad) + (pad + (DICT_END + rest)), acc)
            == Ok((Bound(acc, t.keys[i..], t.vals[i..]), rest))
    decreases t, 0, |t.vals| - i
  {
    hide StartsWith, ReadValue, SkipWs, Element, Blank, TextElement, Escape, Meaning, ReadEntries, Sized;
    SizedPairs(t, i);
    var keys, vals := t.keys[i..], t.vals[i..];
    var close := pad + (DICT_END + rest);
    var s := Pairs(keys, vals, pad) + close;
    if vals == [] {
      assert s == close;
      ClosesList(pad, DICT_END, rest);
      EntriesEnd(std, close, DICT_END + rest, acc);
    } else {
      assert vals[0] == t.vals[i] && vals[1..] == t.vals[i + 1..];
      assert keys[0] == t.keys[i] && keys[1..] == t.keys[i + 1..];
      var tail := Pairs(keys[1..], vals[1..], pad) + close;
      var val := Element(vals[0], pad) + tail;
      var here := KEY + (Escape(keys[0]) + (KEY_END + (pad + val)));
      assert s == pad + here;
      assert here[0] == '<' && here[1] == 'k' && |here| > 5;
      Dispatch(here);
      SkipsPad(pad, here);
      ReadsText(KEY, keys[0], KEY_END, pad + val);
      ReadsPadded(std, vals[0], pad, tail);
      EntriesStep(std, s, here, (keys[0], pad + val), (Meaning(vals[0]), tail), acc);
      ReadsPairs(std, t, i + 1, pad, rest, acc[keys[0] := Meaning(vals[0])]);
    }
  }

  lemma {:induction false} SizedPairs(t: Tree, i: nat)
    requires t.Dic? && Sized(t) && i <= |t.vals|
    ensures |t.keys| == |t.vals| && (i < |t.vals| ==> Sized(t.vals[i]))
  {
  }

  /** Padding before an element does not matter. */
  lemma {:induction false} ReadsPadded(std: Std, t: Tree, pad: string, rest: string)
    requires Blank(pad) && Sized(t)
    ensures ReadValue(std, pad + (Element(t, pad) + rest)) == Ok((Meaning(t), rest))
    decreases t, 2, 0
  {
    hide StartsWith, Element, Blank, TextElement, Meaning;
    var s := Element(t, pad) + rest;
    ElementShape(t, pad, rest);
    Dispatch(s);
    SkipsPad(pad, s);
    SkipsPad("", s);
    assert "" + s == s;
    ReadsElement(std, t, pad, rest);
  }

  // ---- whole documents ----------------------------------------------------------------------------------------------

  datatype Preamble = Instruction(body: string) | Comment(body: string) | Declaration(body: string)

  function Opening(p: Preamble): string {
    match p case Instruction(_) => "<?" case Comment(_) => "<!--" case Declaration(_) => "<!"
  }

  function Ending(p: Preamble): string {
    match p case Instruction(_) => "?>" case Comment(_) => "-->" case Declaration(_) => ">"
  }

  function Written(p: Preamble): string {
    Opening(p) + (p.body + Ending(p))
  }

  /** The ending does not occur before the end, and a declaration is not a comment. */
  ghost predicate Closed(p: Preamble) {
    && Find(Written(p), Ending(p)) == Some(|Written(p)| - |Ending(p)|)
    && (p.Declaration? ==> p.body == "" || p.body[0] != '-')
  }

  function Preambles(ps: seq<Preamble>, pad: string): string {
    if ps == [] then "" else pad + (Written(ps[0]) + Preambles(ps[1..], pad))
  }

  lemma {:induction false} FindExtends(a: string, b: string, needle: string)
    requires needle != "" && Find(a, needle).Some?
    ensures Find(a + b, needle) == Find(a, needle)
  {
    var s := a + b;
    if StartsWith(a, needle) {
      assert s[..|needle|] == a[..|needle|];
    } else {
      var p := Find(a, needle).value;
      assert !StartsWith(s, needle) by {
        assert s[..|needle|] == a[..|needle|];
      }
      assert s[0] == a[0] && s[1..] == a[1..] + b;
      FindExtends(a[1..], b, needle);
    }
  }

  lemma {:induction false} PassesPreamble(p: Preamble, pad: string, rest: string)
    requires Closed(p) && Blank(pad)
    ensures SkipPrologue(pad + (Written(p) + rest)) == SkipPrologue(rest)
  {
    hide StartsWith, Blank, AdvancePast, SkipWs;
    var s := Written(p) + rest;
    SkipsPad(pad, s);
    PassesEnding(p, rest);
    var inner := p.body + (Ending(p) + rest);
    assert s == Opening(p) + inner;
    Begins(Opening(p), inner);
    match p
    case Instruction(_) =>
    case Comment(_) => Differs(s, "<?", 1);
    case Declaration(_) =>
      Differs(s, "<?", 1);
      Differs(s, "<!--", 2);
  }

  lemma {:induction false} PassesEnding(p: Preamble, rest: string)
    requires Closed(p)
    ensures AdvancePast(Written(p) + rest, Ending(p)) == rest
  {
    hide Find, Written;
    FindExtends(Written(p), rest, Ending(p));
    assert (Written(p) + rest)[|Written(p)|..] == rest;
  }

  lemma {:induction false} PassesPreambles(ps: seq<Preamble>, pad: string, rest: string)
    requires (forall k :: 0 <= k < |ps| ==> Closed(ps[k])) && Blank(pad)
    ensures SkipPrologue(Preambles(ps, pad) + rest) == SkipPrologue(rest)
    decreases |ps|
  {
    hide SkipPrologue, Closed, Blank, Written;
    if ps == [] {
      assert Preambles(ps, pad) + rest == rest;
    } else {
      var more := Preambles(ps[1..], pad) + rest;
      assert Preambles(ps, pad) + rest == pad + (Written(ps[0]) + more);
      PassesPreamble(ps[0], pad, more);
      PassesPreambles(ps[1..], pad, rest);
    }
  }

  lemma {:induction false} StopsAtRoot(pad: string, rest: string)
    requires Blank(pad)
    ensures SkipPrologue(pad + ("<plist" + rest)) == "<plist" + rest
    ensures SkipWs("<plist" + rest) == "<plist" + rest
  {
    var s := "<plist" + rest;
    SkipsPad(pad, s);
    SkipsPad("", s);
    assert "" + s == s;
    hide StartsWith;
    Differs(s, "<?", 1);
    Differs(s, "<!--", 1);
    Differs(s, "<!", 1);
  }

  /** The root tag is passed over together with its attributes. */
  lemma {:induction false} PassesRoot(attributes: string, rest: string)
    requires '>' !in attributes
    ensures AdvancePast("<plist" + (attributes + (">" + rest)), ">") == rest
  {
    var head := "<plist" + attributes;
    assert "<plist" + (attributes + (">" + rest)) == head + (">" + rest);
    FindsPast(head, ">", rest);
    hide Find;
    assert (head + (">" + rest))[|head| + 1..] == rest;
  }

  /** Reading undoes printing: any document with any closed preambles, any attributes on the root and
      any blank padding gives back the value that was printed, whatever follows it. */
  lemma {:induction false} ReadUndoesPrint(
    std: Std, ps: seq<Preamble>, pad: string, attributes: string, t: Tree, tail: string
  )
    requires (forall k :: 0 <= k < |ps| ==> Closed(ps[k])) && Blank(pad) && '>' !in attributes && Sized(t)
    ensures ReadPlist(std, Preambles(ps, pad)
                           + (pad + ("<plist" + (attributes + (">" + (pad + (Element(t, pad) + tail)))))))
            == Ok(Meaning(t))
  {
    hide Preambles, Closed, Element, Meaning, ReadValue, SkipPrologue, SkipWs, AdvancePast, StartsWith, Blank, Sized;
    var body := pad + (Element(t, pad) + tail);
    var root := attributes + (">" + body);
    PassesPreambles(ps, pad, pad + ("<plist" + root));
    StopsAtRoot(pad, root);
    Begins("<plist", root);
    PassesRoot(attributes, body);
    ReadsPadded(std, t, pad, tail);
  }

  // ---- numbers, data and failures -----------------------------------------------------------------------------------

  /** Number and data elements give the standard library's reading of their text, and leave what follows. */
  lemma {:induction false} ReadsNumbers(std: Std, pad: string, x: string, rest: string)
    requires Blank(pad)
    ensures ReadValue(std, pad + ("<integer>" + (Escape(x) + ("</integer>" + rest)))) == Ok((Plist.Integer(std.integer(x)), rest))
    ensures ReadValue(std, pad + ("<real>" + (Escape(x) + ("</real>" + rest)))) == Ok((Plist.Real(std.number(x)), rest))
    ensures ReadValue(std, pad + ("<data>" + (Escape(x) + ("</data>" + rest)))) == Ok((Plist.Data(std.data(x)), rest))
  {
    hide ReadValue, Escape, Blank;
    ReadsInteger(std, pad, x, rest);
    ReadsReal(std, pad, x, rest);
    ReadsData(std, pad, x, rest);
  }

  lemma {:induction false} ReadsInteger(std: Std, pad: string, x: string, rest: string)
    requires Blank(pad)
    ensures ReadValue(std, pad + ("<integer>" + (Escape(x) + ("</integer>" + rest)))) == Ok((Plist.Integer(std.integer(x)), rest))
  {
    hide StartsWith, TextElement, SkipWs, Escape, Blank;
    var s := "<integer>" + (Escape(x) + ("</integer>" + rest));
    assert s[0] == '<' && s[1] == 'i';
    Dispatch(s);
    SkipsPad(pad, s);
    ReadsText(INTEGER, x, INTEGER_END, rest);
  }

  lemma {:induction false} ReadsReal(std: Std, pad: string, x: string, rest: string)
    requires Blank(pad)
    ensures ReadValue(std, pad + ("<real>" + (Escape(x) + ("</real>" + rest)))) == Ok((Plist.Real(std.number(x)), rest))
  {
    hide StartsWith, TextElement, SkipWs, Escape, Blank;
    var s := "<real>" + (Escape(x) + ("</real>" + rest));
    assert s[0] == '<' && s[1] == 'r';
    Dispatch(s);
    SkipsPad(pad, s);
    ReadsText(REAL, x, REAL_END, rest);
  }

  lemma {:induction false} ReadsData(std: Std, pad: string, x: string, rest: string)
    requires Blank(pad)
    ensures ReadValue(std, pad + ("<data>" + (Escape(x) + ("</data>" + rest)))) == Ok((Plist.Data(std.data(x)), rest))
  {
    hide StartsWith, TextElement, SkipWs, Escape, Blank;
    var s := "<data>" + (Escape(x) + ("</data>" + rest));
    assert s[0] == '<' && s[1] == 'd' && s[2] == 'a' && DICT[2] == 'i';
    Dispatch(s);
    Differs(s, DICT, 2);
    SkipsPad(pad, s);
    ReadsText(DATA, x, DATA_END, rest);
  }

  /** Anything else where a value should be is an error, and so is a text element that does not close. */
  lemma {:induction false} ValueFailures(std: Std, pad: string, s: string)
    requires Blank(pad) && (s != "" ==> !IsAsciiSpace(s[0]))
    ensures (forall tag :: tag in ["<dict>", "<array>", "<string>", "<integer>", "<real>", "<true/>", "<false/>", "<data>"] ==>
               !StartsWith(s, tag)) ==> ReadValue(std, pad + s) == Err(UnexpectedElement)
    ensures (!StartsWith(s, "<dict>") && !StartsWith(s, "<array>") && StartsWith(s, "<string>")
             && Find(s[8..], "</string>") == None) ==>
              ReadValue(std, pad + s) == Err(Unterminated("</string>"))
  {
    hide StartsWith, SkipWs, Find, Blank, IsAsciiSpace;
    SkipsPad(pad, s);
    var tags := ["<dict>", "<array>", "<string>", "<integer>", "<real>", "<true/>", "<false/>", "<data>"];
    assert tags[0] == DICT && tags[1] == ARRAY && tags[2] == STRING && tags[3] == INTEGER && tags[4] == REAL
           && tags[5] == TRUE && tags[6] == FALSE && tags[7] == DATA;
  }
}
