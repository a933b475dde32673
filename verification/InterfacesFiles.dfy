/** What rewriting and parsing do to interfaces files, line by line: each kind of line is spelled out
    here, and the lemmas say what becomes of it. */
module InterfacesFiles {
  import opened Decimal
  import opened Text
  import opened Wrappers
  import opened Interfaces
  import opened InterfacesLaws
  import Sequences

  predicate Words(ws: seq<string>) {
    forall w | w in ws :: IsWord(w)
  }

  /** Lines that begin with a blank or a tab. */
  predicate Indented(lines: seq<string>) {
    forall l | l in lines :: l != "" && (l[0] == ' ' || l[0] == '\t')
  }

  /** The line `kw w1 w2 ...`. */
  function Line(kw: string, ws: seq<string>): string {
    Join([kw] + ws, " ")
  }

  lemma {:induction false} NonEmptyWords(ws: seq<string>)
    requires Words(ws)
    ensures NonEmpty(ws) == ws
  {
    NonEmptyIsAll(ws);
  }

  /** A line of words has these words as its fields; it starts an entry unless it is a comment. */
  lemma {:induction false} LineOfWords(kw: string, ws: seq<string>)
    requires IsWord(kw) && Words(ws)
    ensures LineFields(Line(kw, ws)) == [kw] + ws
    ensures !IsOption(Line(kw, ws)) && (IsEntry(Line(kw, ws)) <==> kw[0] != '#')
  {
    var line := Line(kw, ws);
    assert forall w | w in [kw] + ws :: IsWord(w);
    NonEmptyWords([kw] + ws);
    FieldsOfJoin([kw] + ws);
    FieldsTrim(line);
    assert line[0] == kw[0] && !IsSpace(line[0]);
    TrimRightKeepsHead(line);
  }

  lemma {:induction false} WordLineIsLine(kw: string, ws: seq<string>)
    requires IsWord(kw) && Words(ws)
    ensures IsLine(Line(kw, ws))
  {
    forall w | w in [kw] + ws
      ensures IsLine(w)
    {
      assert IsWord(w);
    }
    JoinIsLine([kw] + ws);
  }

  // ------------------------------------------------------------- the rewriter

  lemma {:induction false} RewriteSnoc(st: Rewrite, lines: seq<string>, x: string, name: string)
    ensures RewriteFrom(st, lines + [x], name) == RewriteStep(RewriteFrom(st, lines, name), x, name)
  {
    assert (lines + [x])[..|lines|] == lines;
  }

  /** Which of the lines made of words goes: `auto ...` or `allow-... ...` with the name among its words,
      and `iface <name> ...`. Any other such line stays where it is. */
  lemma {:induction false} WordLineGoes(before: seq<string>, kw: string, ws: seq<string>, name: string)
    requires IsWord(kw) && Words(ws)
    ensures Kept(before + [Line(kw, ws)], name) ==
              if || ((kw == "auto" || "allow-" <= kw) && name in ws)
                 || (kw == "iface" && ws != [] && ws[0] == name)
              then Kept(before, name) else Kept(before, name) + [Line(kw, ws)]
  {
    var f := [kw] + ws;
    LineOfWords(kw, ws);
    RewriteSnoc(FRESH, before, Line(kw, ws), name);
    assert f[1..] == ws;
    KeywordsDiffer(kw);
    assert name in ws ==> ws != [];
  }

  /** An `auto` or `allow-...` line that names the interface is never kept, whatever else it names. */
  lemma {:induction false} SharedAutoLineGoes(lines: seq<string>, kw: string, ws: seq<string>, name: string)
    requires IsWord(kw) && Words(ws) && name in ws && (kw == "auto" || "allow-" <= kw)
    ensures Line(kw, ws) !in Kept(lines, name)
    ensures forall l | l in Kept(lines, name) :: l in lines
  {
    LineOfWords(kw, ws);
    assert ([kw] + ws)[1..] == ws;
    KeywordsDiffer(kw);
    KeptAreUnrelated(lines, name);
    KeptAreThere(lines, name);
  }

  lemma {:induction false} KeptAreThere(lines: seq<string>, name: string)
    ensures forall l | l in Kept(lines, name) :: l in lines
  {
    if lines != [] {
      KeptAreThere(lines[..|lines| - 1], name);
      assert lines == lines[..|lines| - 1] + [lines[|lines| - 1]];
    }
  }

  lemma {:induction false} KeywordsDiffer(kw: string)
    ensures kw == "iface" ==> kw != "auto" && !("allow-" <= kw)
    ensures kw == "auto" || kw == "iface" || "allow-" <= kw ==> kw[0] != '#'
  {
    assert "iface"[0] == 'i' && "auto"[0] == 'a' && "allow-"[0] == 'a';
  }

  /** What follows does not change what is kept of the lines before. */
  lemma {:induction false} KeptGrows(a: seq<string>, b: seq<string>, name: string)
    ensures Kept(a, name) <= Kept(a + b, name)
  {
    if b == [] {
      assert a + b == a;
    } else {
      KeptGrows(a, b[..|b| - 1], name);
      assert a + b == a + b[..|b| - 1] + [b[|b| - 1]];
      RewriteSnoc(FRESH, a + b[..|b| - 1], b[|b| - 1], name);
    }
  }

  lemma {:induction false} SkippingAfter(before: seq<string>, kw: string, ws: seq<string>, name: string)
    requires IsWord(kw) && Words(ws) && kw[0] != '#'
    ensures RewriteFrom(FRESH, before + [Line(kw, ws)], name).skipping <==> kw == "iface" && ws != [] && ws[0] == name
  {
    LineOfWords(kw, ws);
    RewriteSnoc(FRESH, before, Line(kw, ws), name);
    assert ([kw] + ws)[1..] == ws;
    KeywordsDiffer(kw);
  }

  lemma {:induction false} OptionFollows(st: Rewrite, x: string, name: string)
    requires IsOption(x)
    ensures RewriteStep(st, x, name) == if st.skipping then st else st.(kept := st.kept + [x])
  {
  }

  lemma {:induction false} OptionsFollow(st: Rewrite, opts: seq<string>, name: string)
    requires Indented(opts)
    ensures RewriteFrom(st, opts, name) == if st.skipping then st else st.(kept := st.kept + opts)
  {
    if opts == [] {
      assert st.kept + opts == st.kept;
    } else {
      var init, x := opts[..|opts| - 1], opts[|opts| - 1];
      assert x in opts && forall l | l in init :: l in opts;
      OptionsFollow(st, init, name);
      OptionFollows(RewriteFrom(st, init, name), x, name);
      assert opts == init + [x];
      Sequences.ConcatAssociates(st.kept, init, [x]);
    }
  }

  /** The indented lines under an entry go with it when it is `iface <name> ...`, and only then. */
  lemma {:induction false} OptionsGo(before: seq<string>, kw: string, ws: seq<string>, opts: seq<string>, name: string)
    requires IsWord(kw) && Words(ws) && kw[0] != '#' && Indented(opts)
    ensures var upTo := before + [Line(kw, ws)];
            Kept(upTo + opts, name) ==
              if kw == "iface" && ws != [] && ws[0] == name then Kept(upTo, name) else Kept(upTo, name) + opts
  {
    var upTo := before + [Line(kw, ws)];
    SkippingAfter(before, kw, ws, name);
    RewriteConcat(FRESH, upTo, opts, name);
    OptionsFollow(RewriteFrom(FRESH, upTo, name), opts, name);
  }

  /** A comment or an empty line stays, and the entry it stands in goes on after it. */
  lemma {:induction false} CommentsStay(before: seq<string>, comment: string, name: string)
    requires comment == "" || comment[0] == '#'
    ensures var st := RewriteFrom(FRESH, before, name);
            RewriteFrom(FRESH, before + [comment], name) == Rewrite(st.skipping, st.kept + [comment])
    ensures ScanFrom(UNSEEN, before + [comment], name) == ScanFrom(UNSEEN, before, name)
  {
    RewriteSnoc(FRESH, before, comment, name);
    ScanSnoc(UNSEEN, before, comment, name);
    if comment != "" {
      SpaceCodes('#');
      TrimRightKeepsHead(comment);
    }
  }

  /** The text of the rewritten file: the kept lines without blank ones at the end, an empty line, and
      the new stanza. */
  lemma {:induction false} RewrittenText(data: string, name: string, stanza: string) returns (kept: seq<string>, blank: seq<string>)
    ensures Kept(Lines(data), name) == kept + blank
    ensures forall l | l in blank :: TrimSpace(l) == ""
    ensures kept != [] ==> TrimSpace(kept[|kept| - 1]) != ""
    ensures Rewritten(data, name, stanza) == if kept == [] then "\n" + stanza else Join(kept, "\n") + "\n\n" + stanza
  {
    kept, blank := BlankTail(Kept(Lines(data), name));
    JoinWithGap(kept, stanza);
  }

  lemma {:induction false} BlankTail(all: seq<string>) returns (kept: seq<string>, blank: seq<string>)
    ensures kept == TrimBlank(all) && all == kept + blank
    ensures forall l | l in blank :: TrimSpace(l) == ""
    ensures kept != [] ==> TrimSpace(kept[|kept| - 1]) != ""
  {
    TrimBlankIsPrefix(all);
    kept := TrimBlank(all);
    blank := all[|kept|..];
    forall i | 0 <= i < |blank|
      ensures TrimSpace(blank[i]) == ""
    {
      assert blank[i] == all[|kept| + i];
    }
  }

  lemma {:induction false} JoinWithGap(kept: seq<string>, stanza: string)
    ensures Join(kept + ["", stanza], "\n") == if kept == [] then "\n" + stanza else Join(kept, "\n") + "\n\n" + stanza
  {
    assert kept + ["", stanza] == kept + [""] + [stanza];
    JoinSnoc(kept + [""], stanza, "\n");
    if kept == [] {
      assert kept + [""] == [""];
    } else {
      var text := Join(kept, "\n");
      JoinSnoc(kept, "", "\n");
      assert text + "\n" + "" + "\n" == text + "\n\n";
    }
  }

  // ---------------------------------------------------------------- the stanza

  function EachEnded(lines: seq<string>): string {
    if lines == [] then "" else lines[0] + "\n" + EachEnded(lines[1..])
  }

  lemma {:induction false} JoinEnded(lines: seq<string>)
    ensures Join(lines + [""], "\n") == EachEnded(lines)
  {
    if lines == [] {
      assert lines + [""] == [""];
    } else {
      assert (lines + [""])[1..] == lines[1..] + [""];
      JoinEnded(lines[1..]);
    }
  }

  lemma {:induction false} EachEndedConcat(a: seq<string>, b: seq<string>)
    ensures EachEnded(a + b) == EachEnded(a) + EachEnded(b)
  {
    if a == [] {
      assert a + b == b;
    } else {
      assert (a + b)[1..] == a[1..] + b;
      EachEndedConcat(a[1..], b);
      assert a[0] + "\n" + (EachEnded(a[1..]) + EachEnded(b)) == a[0] + "\n" + EachEnded(a[1..]) + EachEnded(b);
    }
  }

  lemma {:induction false} OneEnded(line: string)
    ensures EachEnded([line]) == line + "\n"
  {
    assert [line][1..] == [];
  }

  /** A line that is there under a condition. */
  function If(present: bool, line: string): seq<string> {
    if present then [line] else []
  }

  /** The text of a built stanza, line by line, each line ended by a newline. */
  lemma {:induction false} BuiltText(name: string, cfg: IfaceConfig)
    ensures Built(name, cfg) ==
            EachEnded(["auto " + name])
            + EachEnded(["iface " + name + if cfg.dhcp then " inet dhcp" else " inet static"])
            + EachEnded(If(!cfg.dhcp && cfg.address != "", "\taddress " + cfg.address))
            + EachEnded(If(!cfg.dhcp && cfg.gateway != "", "\tgateway " + cfg.gateway))
            + EachEnded(If(!cfg.dhcp && cfg.dns != [], "\tdns-nameservers " + Join(cfg.dns, " ")))
  {
    var auto, header := "auto " + name, "iface " + name + if cfg.dhcp then " inet dhcp" else " inet static";
    var a := If(!cfg.dhcp && cfg.address != "", "\taddress " + cfg.address);
    var g := If(!cfg.dhcp && cfg.gateway != "", "\tgateway " + cfg.gateway);
    var d := If(!cfg.dhcp && cfg.dns != [], "\tdns-nameservers " + Join(cfg.dns, " "));
    JoinEnded(StanzaLines(name, cfg));
    assert StanzaLines(name, cfg) == [auto] + [header] + a + g + d;
    EachEndedConcat([auto], [header]);
    EachEndedConcat([auto] + [header], a);
    EachEndedConcat([auto] + [header] + a, g);
    EachEndedConcat([auto] + [header] + a + g, d);
  }

  // --------------------------------------------------------------- the parser

  lemma {:induction false} ScanSnoc(st: Scan, lines: seq<string>, x: string, name: string)
    ensures ScanFrom(st, lines + [x], name) == ScanStep(ScanFrom(st, lines, name), x, name)
  {
    assert (lines + [x])[..|lines|] == lines;
  }

  predicate AllLines(lines: seq<string>) {
    forall l | l in lines :: IsLine(l)
  }

  /** What the file with these lines says about `name`. */
  function Reads(lines: seq<string>, name: string, prefix: string -> Int64): IfaceConfig {
    Parsed(Join(lines, "\n"), name, prefix)
  }

  lemma {:induction false} LinesOfFile(lines: seq<string>)
    requires AllLines(lines)
    ensures lines != [] ==> Lines(Join(lines, "\n")) == lines
    ensures forall name :: ScanFrom(UNSEEN, Lines(Join(lines, "\n")), name) == ScanFrom(UNSEEN, lines, name)
  {
    if lines != [] {
      var init, last := lines[..|lines| - 1], lines[|lines| - 1];
      assert lines == init + [last] && last in lines;
      LinesOfJoin(init, last);
      LinesOfLine(last);
    } else {
      assert Lines("") == [""] && [""][..0] == [];
      assert !IsEntry("") && !IsSetting("");
    }
  }

  /** A line of words added at the end of a file: `iface <name> inet <method> ...` starts the interface's
      configuration afresh, static or not; any other line leaves it as it was. */
  lemma {:induction false} EntryRead(before: seq<string>, kw: string, ws: seq<string>, name: string, prefix: string -> Int64)
    requires AllLines(before) && IsWord(kw) && Words(ws)
    ensures Reads(before + [Line(kw, ws)], name, prefix) ==
              if kw == "iface" && |ws| >= 3 && ws[0] == name && ws[1] == "inet"
              then IfaceConfig(ws[2] != "static", "", "", []) else Reads(before, name, prefix)
  {
    var line := Line(kw, ws);
    LineOfWords(kw, ws);
    WordLineIsLine(kw, ws);
    LinesOfFile(before);
    LinesOfFile(before + [line]);
    ScanSnoc(UNSEEN, before, line, name);
    KeywordsDiffer(kw);
  }

  lemma {:induction false} OpenScan(before: seq<string>, name: string, extra: seq<string>, opts: seq<string>)
    requires IsWord(name) && Words(extra) && Indented(opts)
    ensures var st := ScanFrom(UNSEEN, before + [Line("iface", [name, "inet", "static"] + extra)] + opts, name);
            st.open && st.stanza.Some? && st.stanza.value.static_
  {
    var line := Line("iface", [name, "inet", "static"] + extra);
    if opts == [] {
      KeywordsAreWords();
      LineOfWords("iface", [name, "inet", "static"] + extra);
      assert before + [line] + opts == before + [line];
      ScanSnoc(UNSEEN, before, line, name);
    } else {
      var init, x := opts[..|opts| - 1], opts[|opts| - 1];
      assert x in opts && forall l | l in init :: l in opts;
      OpenScan(before, name, extra, init);
      assert before + [line] + opts == before + [line] + init + [x];
      ScanSnoc(UNSEEN, before + [line] + init, x, name);
      assert !IsEntry(x);
    }
  }

  lemma {:induction false} KeywordsAreWords()
    ensures IsWord("iface") && IsWord("inet") && IsWord("static") && IsWord("address") && IsWord("netmask")
  {
  }

  /** A setting line: a tab, a key, and its values. */
  function Setting(key: string, vals: seq<string>): string {
    "\t" + Line(key, vals)
  }

  lemma {:induction false} SettingFields(key: string, vals: seq<string>)
    requires IsWord(key) && Words(vals)
    ensures IsOption(Setting(key, vals)) && IsLine(Setting(key, vals)) && !IsEntry(Setting(key, vals))
    ensures LineFields(Setting(key, vals)) == [key] + vals
  {
    var line := Setting(key, vals);
    LineOfWords(key, vals);
    WordLineIsLine(key, vals);
    ConcatIsLine("\t", Line(key, vals));
    FieldsTrim(line);
    FieldsTrim(Line(key, vals));
    assert line[1..] == Line(key, vals);
  }

  /** A setting added to a static stanza at the end of a file: the first value of `gateway` and all the
      values of `dns-nameservers` replace what was there; an address with a prefix length does too; a
      setting of another key, or without a value, changes nothing. */
  lemma {:induction false} SettingRead(before: seq<string>, extra: seq<string>, opts: seq<string>, key: string, vals: seq<string>,
                    name: string, prefix: string -> Int64)
    requires AllLines(before) && IsWord(name) && Words(extra) && Indented(opts) && AllLines(opts)
    requires IsWord(key) && Words(vals)
    ensures var file := before + [Line("iface", [name, "inet", "static"] + extra)] + opts;
            var old_, new_ := Reads(file, name, prefix), Reads(file + [Setting(key, vals)], name, prefix);
            && !old_.dhcp && !new_.dhcp
            && (vals == [] ==> new_ == old_)
            && new_.gateway == (if key == "gateway" && vals != [] then vals[0] else old_.gateway)
            && new_.dns == (if key == "dns-nameservers" && vals != [] then vals else old_.dns)
            && (key != "address" && key != "netmask" ==> new_.address == old_.address)
            && (key == "address" && vals != [] && '/' in vals[0] ==> new_.address == vals[0])
  {
    var file := before + [Line("iface", [name, "inet", "static"] + extra)] + opts;
    var line := Setting(key, vals);
    OpenScan(before, name, extra, opts);
    FileIsLines(before, name, extra, opts);
    SettingFields(key, vals);
    LinesOfFile(file);
    LinesOfFile(file + [line]);
    ScanSnoc(UNSEEN, file, line, name);
    if vals != [] {
      SettingMeans(ScanFrom(UNSEEN, file, name).stanza.value.settings, line, key, vals, prefix);
    }
  }

  lemma {:induction false} SettingMeans(settings: seq<string>, line: string, key: string, vals: seq<string>, prefix: string -> Int64)
    requires vals != [] && LineFields(line) == [key] + vals
    ensures var old_ := Meaning(Some(Stanza(true, settings)), prefix);
            var new_ := Meaning(Some(Stanza(true, settings + [line])), prefix);
            && new_.gateway == (if key == "gateway" then vals[0] else old_.gateway)
            && new_.dns == (if key == "dns-nameservers" then vals else old_.dns)
            && (key != "address" && key != "netmask" ==> new_.address == old_.address)
            && (key == "address" && '/' in vals[0] ==> new_.address == vals[0])
  {
    ValuesOfSnoc(settings, line);
    UpdateByKey(ValuesOf(settings), key, vals);
  }

  lemma {:induction false} UpdateByKey(v: Values, key: string, vals: seq<string>)
    requires vals != []
    ensures var w := Update(v, [key] + vals);
            && w.gateway == (if key == "gateway" then vals else v.gateway)
            && w.dns == (if key == "dns-nameservers" then vals else v.dns)
            && w.address == (if key == "address" then vals else v.address)
            && w.netmask == (if key == "netmask" then vals else v.netmask)
  {
    assert ([key] + vals)[1..] == vals;
  }

  lemma {:induction false} FileIsLines(before: seq<string>, name: string, extra: seq<string>, opts: seq<string>)
    requires AllLines(before) && IsWord(name) && Words(extra) && AllLines(opts)
    ensures AllLines(before + [Line("iface", [name, "inet", "static"] + extra)] + opts)
  {
    KeywordsAreWords();
    WordLineIsLine("iface", [name, "inet", "static"] + extra);
  }

  /** Under an entry that is not the interface's, settings say nothing about it. */
  lemma {:induction false} ForeignSettings(before: seq<string>, kw: string, ws: seq<string>, opts: seq<string>,
                        name: string, prefix: string -> Int64)
    requires AllLines(before) && IsWord(kw) && Words(ws) && kw[0] != '#' && Indented(opts) && AllLines(opts)
    requires !(kw == "iface" && |ws| >= 3 && ws[0] == name && ws[1] == "inet")
    ensures Reads(before + [Line(kw, ws)] + opts, name, prefix) == Reads(before, name, prefix)
  {
    var line := Line(kw, ws);
    LineOfWords(kw, ws);
    WordLineIsLine(kw, ws);
    LinesOfFile(before);
    LinesOfFile(before + [line] + opts);
    ScanSnoc(UNSEEN, before, line, name);
    ScanConcat(UNSEEN, before + [line], opts, name);
    ClosedSettings(ScanFrom(UNSEEN, before + [line], name), opts, name);
    KeywordsDiffer(kw);
  }

  lemma {:induction false} ClosedSettings(st: Scan, opts: seq<string>, name: string)
    requires !st.open && Indented(opts)
    ensures ScanFrom(st, opts, name) == st
  {
    if opts != [] {
      assert opts[|opts| - 1] in opts && forall l | l in opts[..|opts| - 1] :: l in opts;
      ClosedSettings(st, opts[..|opts| - 1], name);
    }
  }

  /** The address of a static stanza: with a netmask that has a prefix length it is the address given, a
      slash, and that length in decimal; an address that has a slash already, or has no such netmask,
      is returned as it is. */
  lemma {:induction false} AddressWithPrefix(data: string, name: string, prefix: string -> Int64)
    requires LastStanza(Lines(data), name).Some? && LastStanza(Lines(data), name).value.static_
    ensures var settings := LastStanza(Lines(data), name).value.settings;
            var a, m := FirstOr(LastValue(settings, "address")), FirstOr(LastValue(settings, "netmask"));
            var r := Parsed(data, name, prefix).address;
            if a != "" && '/' !in a && m != "" && prefix(m) > 0
            then a + "/" <= r && Atoi(r[|a| + 1..]) == Some(prefix(m)) else r == a
  {
    var settings := LastStanza(Lines(data), name).value.settings;
    var a, m := FirstOr(LastValue(settings, "address")), FirstOr(LastValue(settings, "netmask"));
    AtoiItoa(prefix(m));
    assert (a + "/" + Itoa(prefix(m)))[|a| + 1..] == Itoa(prefix(m));
  }

  /** An address and a separate netmask line are read back as one address with a prefix length. */
  lemma {:induction false} NetmaskRead(before: seq<string>, address: string, netmask: string, name: string, prefix: string -> Int64)
    requires AllLines(before) && IsWord(name) && IsWord(address) && IsWord(netmask) && '/' !in address
    ensures var r := Reads(before + [Line("iface", [name, "inet", "static"]), Setting("address", [address]),
                                     Setting("netmask", [netmask])], name, prefix);
            && !r.dhcp && r.gateway == "" && r.dns == []
            && if prefix(netmask) > 0
               then address + "/" <= r.address && Atoi(r.address[|address| + 1..]) == Some(prefix(netmask))
               else r.address == address
  {
    var header, a, m := Line("iface", [name, "inet", "static"]), Setting("address", [address]), Setting("netmask", [netmask]);
    var file := before + [header, a, m];
    KeywordsAreWords();
    LineOfWords("iface", [name, "inet", "static"]);
    WordLineIsLine("iface", [name, "inet", "static"]);
    SettingFields("address", [address]);
    SettingFields("netmask", [netmask]);
    LinesOfFile(file);
    assert ["iface"] + [name, "inet", "static"] == ["iface", name, "inet", "static"];
    assert ["address"] + [address] == ["address", address] && ["netmask"] + [netmask] == ["netmask", netmask];
    MaskedScan(before, header, a, m, name);
    LastValuesOfTwo(a, m, address, netmask);
    AddressWithPrefix(Join(file, "\n"), name, prefix);
  }

  lemma {:induction false} MaskedScan(before: seq<string>, header: string, a: string, m: string, name: string)
    requires OpensInet(header, name) && LineFields(header)[3] == "static"
    requires IsSetting(a) && IsSetting(m)
    ensures ScanFrom(UNSEEN, before + [header, a, m], name) == Scan(true, Some(Stanza(true, [a, m])))
  {
    assert before + [header, a, m] == before + [header] + [a] + [m];
    ScanSnoc(UNSEEN, before, header, name);
    ScanSnoc(UNSEEN, before + [header], a, name);
    ScanSnoc(UNSEEN, before + [header] + [a], m, name);
    assert [] + [a] + [m] == [a, m];
  }

  lemma {:induction false} LastValuesOfTwo(a: string, m: string, address: string, netmask: string)
    requires LineFields(a) == ["address", address] && LineFields(m) == ["netmask", netmask]
    ensures LastValue([a, m], "address") == [address] && LastValue([a, m], "netmask") == [netmask]
    ensures LastValue([a, m], "gateway") == [] && LastValue([a, m], "dns-nameservers") == []
  {
    assert "address"[0] == 'a' && "netmask"[0] == 'n' && "gateway"[0] == 'g' && "dns-nameservers"[0] == 'd';
    assert [] + [a] == [a] && [a] + [m] == [a, m];
    ValuesOfSnoc([], a);
    UpdateByKey(ValuesOf([]), "address", [address]);
    ValuesOfSnoc([a], m);
    UpdateByKey(ValuesOf([a]), "netmask", [netmask]);
    assert ["address"] + [address] == ["address", address] && ["netmask"] + [netmask] == ["netmask", netmask];
  }
}
