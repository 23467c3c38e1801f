/**
 * The reader's configuration file `cfg.txt`: one `key=value` per line, read
 * into a dictionary by `load_cfg`, and the `string_to_bool` conversion applied
 * to the flags read from it.
 */
module Config {
  import opened Text

  datatype Option<T> = None | Some(value: T)

  datatype Entry = Entry(key: string, value: string)

  /** The position of the first `c` in `s` (`str.split(c, 1)` cuts there). */
  function FirstIndex(s: string, c: char): (i: nat)
    requires c in s
    ensures i < |s| && s[i] == c
    ensures forall j :: 0 <= j < i ==> s[j] != c
  {
    if s[0] == c then 0 else 1 + FirstIndex(s[1..], c)
  }

  /**
   * What one line of the file contributes: nothing when the stripped line is
   * empty, starts with `#` or has no `=`; otherwise the stripped text before
   * the first `=` as key and the stripped rest as value.
   */
  function ParseLine(line: string): (e: Option<Entry>)
    ensures e.None? <==> (var t := Strip(line); t == [] || t[0] == '#' || '=' !in t)
    ensures e.Some? ==> '=' !in e.value.key
  {
    var t := Strip(line);
    if t == [] || t[0] == '#' then None
    else if '=' in t then
      var i := FirstIndex(t, '=');
      assert forall j :: 0 <= j < i ==> t[..i][j] == t[j];
      var key := Strip(t[..i]);
      StripSpec(t[..i]);
      assert forall j :: 0 <= j < |key| ==> key[j] in t[..i];
      Some(Entry(key, Strip(t[i + 1..])))
    else None
  }

  /**
   * Splitting at the first `=`: whenever the stripped line is `k + "=" + v`
   * with no `=` in `k`, the entry is `k.strip()` mapped to `v.strip()`, and
   * `v` may contain further `=`.
   */
  lemma ParseLineSplit(line: string, k: string, v: string)
    requires Strip(line) == k + "=" + v && '=' !in k
    requires Strip(line)[0] != '#'
    ensures ParseLine(line) == Some(Entry(Strip(k), Strip(v)))
  {
    var t := Strip(line);
    assert t[|k|] == '=';
    var i := FirstIndex(t, '=');
    assert i == |k|;
    assert t[..i] == k && t[i + 1..] == v;
  }

  /** What each line of the file contributes, in file order. */
  function Entries(lines: seq<string>): (es: seq<Option<Entry>>)
    ensures |es| == |lines|
    ensures forall j :: 0 <= j < |lines| ==> es[j] == ParseLine(lines[j])
  {
    seq(|lines|, j requires 0 <= j < |lines| => ParseLine(lines[j]))
  }

  /** `e` sets key `key`. */
  predicate Sets(e: Option<Entry>, key: string)
  {
    e.Some? && e.value.key == key
  }

  /** Line `line` sets key `key`. */
  predicate Defines(line: string, key: string)
  {
    Sets(ParseLine(line), key)
  }

  /** The dictionary after storing one more entry. */
  function Put(config: map<string, string>, e: Option<Entry>): map<string, string>
  {
    match e
    case None => config
    case Some(entry) => config[entry.key := entry.value]
  }

  /** The dictionary after storing `es` in order, starting from `config`. */
  function Store(config: map<string, string>, es: seq<Option<Entry>>): map<string, string>
  {
    if es == [] then config
    else Put(Store(config, es[..|es| - 1]), es[|es| - 1])
  }

  /**
   * The loop of `load_cfg`: reads the lines of the file into `CONFIG_MAP`
   * (here `config` on entry and `m` on exit).
   */
  method LoadCfg(config: map<string, string>, lines: seq<string>) returns (m: map<string, string>)
    ensures m == Store(config, Entries(lines))
  {
    ghost var es := Entries(lines);
    m := config;
    for i := 0 to |lines|
      invariant m == Store(config, es[..i])
    {
      StoreNext(config, es, i);
      var line := Strip(lines[i]);
      if line != [] && line[0] != '#' {
        if '=' in line {
          var p := FirstIndex(line, '=');
          m := m[Strip(line[..p]) := Strip(line[p + 1..])];
        }
      }
    }
    assert es[..|lines|] == es;
  }

  lemma StoreNext(config: map<string, string>, es: seq<Option<Entry>>, i: nat)
    requires i < |es|
    ensures Store(config, es[..i + 1]) == Put(Store(config, es[..i]), es[i])
  {
    assert es[..i + 1][..i] == es[..i];
  }

  lemma {:induction false} StoreKeys(config: map<string, string>, es: seq<Option<Entry>>, key: string)
    ensures key in Store(config, es) <==> key in config || exists j :: 0 <= j < |es| && Sets(es[j], key)
  {
    if es != [] {
      var init := es[..|es| - 1];
      StoreKeys(config, init, key);
      assert forall j :: 0 <= j < |init| ==> init[j] == es[j];
      if key !in config && !Sets(es[|es| - 1], key) && exists j :: 0 <= j < |es| && Sets(es[j], key) {
        var j :| 0 <= j < |es| && Sets(es[j], key);
        assert j < |init| && Sets(init[j], key);
      }
    }
  }

  lemma {:induction false} StoreLastWins(config: map<string, string>, es: seq<Option<Entry>>, j: nat)
    requires j < |es| && es[j].Some?
    requires forall l :: j < l < |es| ==> !Sets(es[l], es[j].value.key)
    ensures es[j].value.key in Store(config, es) && Store(config, es)[es[j].value.key] == es[j].value.value
  {
    var init := es[..|es| - 1];
    if j < |es| - 1 {
      assert init[j] == es[j];
      assert forall l :: j < l < |init| ==> init[l] == es[l];
      StoreLastWins(config, init, j);
    }
  }

  lemma {:induction false} StoreUntouched(config: map<string, string>, es: seq<Option<Entry>>, key: string)
    requires forall j :: 0 <= j < |es| ==> !Sets(es[j], key)
    ensures key in Store(config, es) <==> key in config
    ensures key in config ==> Store(config, es)[key] == config[key]
  {
    if es != [] {
      var init := es[..|es| - 1];
      assert forall j :: 0 <= j < |init| ==> init[j] == es[j];
      StoreUntouched(config, init, key);
    }
  }

  /** A key is in the dictionary exactly when it was there before or some line sets it. */
  lemma ConfigKeys(config: map<string, string>, lines: seq<string>, key: string)
    ensures key in Store(config, Entries(lines)) <==>
            key in config || exists j :: 0 <= j < |lines| && Defines(lines[j], key)
  {
    StoreKeys(config, Entries(lines), key);
  }

  /**
   * Later lines overwrite earlier ones: the value of a key is the one set by
   * the last line that sets it.
   */
  lemma ConfigLastWins(config: map<string, string>, lines: seq<string>, j: nat)
    requires j < |lines| && ParseLine(lines[j]).Some?
    requires forall l :: j < l < |lines| ==> !Defines(lines[l], ParseLine(lines[j]).value.key)
    ensures var e := ParseLine(lines[j]).value;
            e.key in Store(config, Entries(lines)) && Store(config, Entries(lines))[e.key] == e.value
  {
    StoreLastWins(config, Entries(lines), j);
  }

  /** A key that no line sets keeps its old value, or stays absent. */
  lemma ConfigUntouched(config: map<string, string>, lines: seq<string>, key: string)
    requires forall j :: 0 <= j < |lines| ==> !Defines(lines[j], key)
    ensures key in Store(config, Entries(lines)) <==> key in config
    ensures key in config ==> Store(config, Entries(lines))[key] == config[key]
  {
    StoreUntouched(config, Entries(lines), key);
  }

  /**
   * `string_to_bool`: lowers `s` and compares it with "true", "1" and "yes".
   * It holds exactly when `s` is one of those words written in any mix of
   * letter cases; everything else, "false" and the empty string included, is false.
   */
  function StringToBool(s: string): (b: bool)
    ensures b <==>
            SpelledIgnoringCase(s, "true") || SpelledIgnoringCase(s, "1") || SpelledIgnoringCase(s, "yes")
  {
    var l := ToLower(s);
    l == "true" || l == "1" || l == "yes"
  }

  /** `s` spells `word` with any mix of upper- and lower-case letters. */
  predicate SpelledIgnoringCase(s: string, word: string)
  {
    |s| == |word| && forall k :: 0 <= k < |s| ==> s[k] == word[k] || s[k] == UpperChar(word[k])
  }

  /** The spellings the flags in the file are written with. */
  lemma StringToBoolTrueExamples()
    ensures StringToBool("True") && StringToBool("YES") && StringToBool("1") && StringToBool("true")
  {
  }

  /** Anything else is false, including surrounding whitespace, which is not stripped. */
  lemma StringToBoolFalseExamples()
    ensures !StringToBool("false") && !StringToBool("") && !StringToBool(" true") && !StringToBool("0")
  {
  }

  /** A plain assignment. */
  lemma AssignmentExample()
    ensures ParseLine("size=5") == Some(Entry("size", "5"))
  {
    StripUnchanged("size=5");
    StripUnchanged("size");
    StripUnchanged("5");
    ParseLineSplit("size=5", "size", "5");
  }

  /** Only the first `=` splits: the value keeps the others. */
  lemma FirstEqualsExample()
    ensures ParseLine("url=a=b") == Some(Entry("url", "a=b"))
  {
    StripUnchanged("url=a=b");
    StripUnchanged("url");
    StripUnchanged("a=b");
    ParseLineSplit("url=a=b", "url", "a=b");
  }

  /** Comments, lines without `=` and empty lines contribute nothing. */
  lemma SkippedLineExamples()
    ensures ParseLine("#size=5") == None
    ensures ParseLine("hide") == None
    ensures ParseLine("") == None
  {
    StripUnchanged("#size=5");
    StripUnchanged("hide");
    assert "hide" == ['h', 'i', 'd', 'e'];
  }
}
