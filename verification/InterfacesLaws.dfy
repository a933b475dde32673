/** The laws of the interfaces rewriter: last write wins, round trip, and the frame of every other
    interface. */
module InterfacesLaws {
  import opened Decimal
  import opened Text
  import opened Wrappers
  import opened Interfaces

  // ------------------------------------------------------- fields of the lines

  lemma {:induction false} EntryLine(s: string)
    requires s != "" && !IsSpace(s[0]) && s[0] != '#'
    ensures IsEntry(s) && LineFields(s) == Fields(s)
  {
    FieldsTrim(s);
    TrimRightKeepsHead(s);
  }

  lemma {:induction false} AutoFields(name: string)
    requires IsWord(name)
    ensures IsEntry("auto " + name) && LineFields("auto " + name) == ["auto", name]
  {
    var line := "auto" + " " + name;
    assert "auto" + " " == "auto ";
    EntryLine(line);
    FieldsOfWordThen("auto", name);
    FieldsOfWord(name);
  }

  lemma {:induction false} IfaceFields(name: string, method_: string)
    requires IsWord(name) && IsWord(method_)
    ensures IsEntry("iface " + name + (" inet " + method_))
    ensures LineFields("iface " + name + (" inet " + method_)) == ["iface", name, "inet", method_]
  {
    FieldsOfFour("iface", name, "inet", method_);
    IfaceLine(name, "inet" + " " + method_);
    assert " inet " == " " + "inet" + " ";
    assert " inet " + method_ == " " + ("inet" + " " + method_);
    EntryLine("iface " + name + (" inet " + method_));
  }

  lemma {:induction false} IfaceLine(name: string, tail: string)
    ensures "iface " + name + (" " + tail) == "iface" + " " + (name + " " + tail)
  {
    assert "iface " == "iface" + " ";
  }

  lemma {:induction false} OptionFields(key: string, value: string)
    requires IsWord(key)
    ensures IsOption("\t" + key + " " + value)
    ensures LineFields("\t" + key + " " + value) == [key] + Fields(value)
  {
    var line := "\t" + key + " " + value;
    FieldsTrim(line);
    assert line[1..] == key + " " + value;
    FieldsOfWordThen(key, value);
  }

  // --------------------------------------------------------- what is rewritten

  /** No value of `cfg` holds a newline. */
  predicate OneLineValues(cfg: IfaceConfig) {
    IsLine(cfg.address) && IsLine(cfg.gateway) && forall d | d in cfg.dns :: IsLine(d)
  }

  predicate SpaceFreeValues(cfg: IfaceConfig) {
    SpaceFree(cfg.address) && SpaceFree(cfg.gateway) && forall d | d in cfg.dns :: SpaceFree(d)
  }

  lemma {:induction false} ConcatIsLine(a: string, b: string)
    ensures IsLine(a + b) <==> IsLine(a) && IsLine(b)
  {
    assert forall c :: c in a + b <==> c in a || c in b;
  }

  lemma {:induction false} JoinIsLine(parts: seq<string>)
    requires forall p | p in parts :: IsLine(p)
    ensures IsLine(Join(parts, " "))
  {
    if |parts| > 1 {
      JoinIsLine(parts[1..]);
      ConcatIsLine(parts[0], " ");
      ConcatIsLine(parts[0] + " ", Join(parts[1..], " "));
    } else {
      assert parts != [] ==> parts[0] in parts;
    }
  }

  lemma {:induction false} SettingLinesAreLines(cfg: IfaceConfig)
    requires OneLineValues(cfg)
    ensures forall l | l in SettingLines(cfg) :: IsLine(l)
  {
    JoinIsLine(cfg.dns);
    ConcatIsLine("\taddress ", cfg.address);
    ConcatIsLine("\tgateway ", cfg.gateway);
    ConcatIsLine("\tdns-nameservers ", Join(cfg.dns, " "));
  }

  lemma {:induction false} LinesOfBuilt(name: string, cfg: IfaceConfig)
    requires IsWord(name) && OneLineValues(cfg)
    ensures Lines(Built(name, cfg)) == StanzaLines(name, cfg) + [""]
  {
    assert IsLine(name);
    var method_ := if cfg.dhcp then " inet dhcp" else " inet static";
    ConcatIsLine("auto ", name);
    ConcatIsLine("iface ", name);
    ConcatIsLine("iface " + name, method_);
    SettingLinesAreLines(cfg);
    assert StanzaLines(name, cfg) == ["auto " + name, "iface " + name + method_] + SettingLines(cfg);
    LinesOfJoin(StanzaLines(name, cfg), "");
    assert Lines("") == [""];
  }

  lemma {:induction false} KeptAreLines(lines: seq<string>, name: string)
    requires forall l | l in lines :: IsLine(l)
    ensures forall l | l in Kept(lines, name) :: IsLine(l)
  {
    if lines != [] {
      KeptAreLines(lines[..|lines| - 1], name);
      assert lines[|lines| - 1] in lines;
    }
  }

  lemma {:induction false} TrimBlankIsPrefix(lines: seq<string>)
    ensures TrimBlank(lines) <= lines
    ensures TrimBlank(lines) != [] ==> TrimSpace(TrimBlank(lines)[|TrimBlank(lines)| - 1]) != ""
    ensures forall i | |TrimBlank(lines)| <= i < |lines| :: TrimSpace(lines[i]) == ""
  {
    if lines != [] && TrimSpace(lines[|lines| - 1]) == "" {
      TrimBlankIsPrefix(lines[..|lines| - 1]);
    }
  }

  /** The lines of the rewritten file. */
  lemma {:induction false} LinesOfRewritten(data: string, name: string, stanza: string)
    ensures Lines(Rewritten(data, name, stanza)) == TrimBlank(Kept(Lines(data), name)) + [""] + Lines(stanza)
  {
    var kept := Kept(Lines(data), name);
    LinesAreLines(data);
    KeptAreLines(Lines(data), name);
    TrimBlankIsPrefix(kept);
    assert forall l | l in TrimBlank(kept) :: l in kept;
    LinesOfJoin(TrimBlank(kept) + [""], stanza);
    assert TrimBlank(kept) + [""] + [stanza] == TrimBlank(kept) + ["", stanza];
  }

  // ----------------------------------------------------------- last write wins

  lemma {:induction false} RewriteConcat(st: Rewrite, a: seq<string>, b: seq<string>, name: string)
    ensures RewriteFrom(st, a + b, name) == RewriteFrom(RewriteFrom(st, a, name), b, name)
  {
    if b == [] {
      assert a + b == a;
    } else {
      assert (a + b)[..|a + b| - 1] == a + b[..|b| - 1];
      RewriteConcat(st, a, b[..|b| - 1], name);
    }
  }

  predicate Unrelated(line: string, name: string) {
    !DropsAuto(line, name) && !DropsIface(line, name)
  }

  lemma {:induction false} KeptAreUnrelated(lines: seq<string>, name: string)
    ensures forall l | l in Kept(lines, name) :: Unrelated(l, name)
  {
    if lines != [] {
      KeptAreUnrelated(lines[..|lines| - 1], name);
    }
  }

  lemma {:induction false} UnrelatedAreKept(st: Rewrite, lines: seq<string>, name: string)
    requires !st.skipping && forall l | l in lines :: Unrelated(l, name)
    ensures RewriteFrom(st, lines, name) == Rewrite(false, st.kept + lines)
  {
    if lines != [] {
      UnrelatedAreKept(st, lines[..|lines| - 1], name);
      assert lines[|lines| - 1] in lines;
      assert lines == lines[..|lines| - 1] + [lines[|lines| - 1]];
    }
  }

  lemma {:induction false} OptionsAreSkipped(st: Rewrite, lines: seq<string>, name: string)
    requires st.skipping && forall l | l in lines :: IsOption(l)
    ensures RewriteFrom(st, lines, name) == st
  {
    if lines != [] {
      OptionsAreSkipped(st, lines[..|lines| - 1], name);
      assert lines[|lines| - 1] in lines;
    }
  }

  lemma {:induction false} SettingLinesAreOptions(cfg: IfaceConfig)
    ensures forall l | l in SettingLines(cfg) :: IsOption(l)
  {
  }

  lemma {:induction false} HeaderFields(name: string, cfg: IfaceConfig)
    requires IsWord(name)
    ensures var header := "iface " + name + if cfg.dhcp then " inet dhcp" else " inet static";
            && StanzaLines(name, cfg)[1] == header
            && IsEntry(header)
            && LineFields(header) == ["iface", name, "inet", if cfg.dhcp then "dhcp" else "static"]
  {
    IfaceFields(name, "dhcp");
    IfaceFields(name, "static");
    assert " inet " + "dhcp" == " inet dhcp" && " inet " + "static" == " inet static";
  }

  /** A built stanza is removed whole, up to the blank line that ends it. */
  lemma {:induction false} BuiltIsDropped(kept: seq<string>, name: string, cfg: IfaceConfig)
    requires IsWord(name)
    ensures RewriteFrom(Rewrite(false, kept), StanzaLines(name, cfg) + [""], name) == Rewrite(true, kept + [""])
  {
    var auto, header := "auto " + name, StanzaLines(name, cfg)[1];
    var st := Rewrite(false, kept);
    AutoFields(name);
    HeaderFields(name, cfg);
    assert ["auto", name][1..] == [name];
    assert DropsAuto(auto, name) && DropsIface(header, name);
    assert [auto, header][..1] == [auto] && [auto][..0] == [];
    assert RewriteFrom(st, [auto], name) == st;
    assert RewriteFrom(st, [auto, header], name) == Rewrite(true, kept);
    SettingLinesAreOptions(cfg);
    OptionsAreSkipped(Rewrite(true, kept), SettingLines(cfg), name);
    RewriteConcat(st, [auto, header], SettingLines(cfg), name);
    assert (StanzaLines(name, cfg) + [""])[..|StanzaLines(name, cfg)|] == StanzaLines(name, cfg);
    assert !IsEntry("");
  }

  lemma {:induction false} TrimBlankAgain(lines: seq<string>)
    ensures TrimBlank(TrimBlank(lines) + ["", ""]) == TrimBlank(lines)
  {
    var t := TrimBlank(lines);
    TrimBlankIsPrefix(lines);
    assert (t + ["", ""])[..|t| + 1] == t + [""];
    assert (t + [""])[..|t|] == t;
    assert TrimSpace("") == "";
    assert TrimBlank(t) == t;
    assert TrimBlank(t + [""]) == t;
  }

  /** A second pass keeps unrelated lines and drops a built stanza after them, up to its blank line. */
  lemma {:induction false} SecondPass(u: seq<string>, name: string, cfg: IfaceConfig)
    requires IsWord(name) && forall l | l in u :: Unrelated(l, name)
    ensures Kept(u + (StanzaLines(name, cfg) + [""]), name) == u + [""]
  {
    var built := StanzaLines(name, cfg) + [""];
    RewriteConcat(FRESH, u, built, name);
    UnrelatedAreKept(FRESH, u, name);
    assert [] + u == u;
    BuiltIsDropped(u, name, cfg);
  }

  lemma {:induction false} TrimmedAreUnrelated(lines: seq<string>, name: string)
    ensures forall l | l in TrimBlank(Kept(lines, name)) + [""] :: Unrelated(l, name)
  {
    TrimBlankIsPrefix(Kept(lines, name));
    KeptAreUnrelated(lines, name);
    assert forall l | l in TrimBlank(Kept(lines, name)) :: l in Kept(lines, name);
    assert !IsEntry("");
  }

  /** Rewriting twice leaves what the second rewrite alone would leave, byte for byte. */
  lemma {:induction false} LastWriteWins(data: string, name: string, first: IfaceConfig, stanza: string)
    requires IsWord(name) && OneLineValues(first)
    ensures Rewritten(Rewritten(data, name, Built(name, first)), name, stanza) == Rewritten(data, name, stanza)
  {
    LinesOfRewritten(data, name, Built(name, first));
    LinesOfBuilt(name, first);
    TrimmedAreUnrelated(Lines(data), name);
    SecondPass(TrimBlank(Kept(Lines(data), name)) + [""], name, first);
    assert TrimBlank(Kept(Lines(data), name)) + [""] + [""] == TrimBlank(Kept(Lines(data), name)) + ["", ""];
    TrimBlankAgain(Kept(Lines(data), name));
  }

  // ---------------------------------------------------------------- round trip

  lemma {:induction false} ScanConcat(st: Scan, a: seq<string>, b: seq<string>, name: string)
    ensures ScanFrom(st, a + b, name) == ScanFrom(ScanFrom(st, a, name), b, name)
  {
    if b == [] {
      assert a + b == a;
    } else {
      assert (a + b)[..|a + b| - 1] == a + b[..|b| - 1];
      ScanConcat(st, a, b[..|b| - 1], name);
    }
  }

  /** What reading the file back can return for `cfg`: no values with DHCP, and no empty DNS entry. */
  function Normal(cfg: IfaceConfig): IfaceConfig {
    if cfg.dhcp then IfaceConfig(true, "", "", []) else cfg.(dns := NonEmpty(cfg.dns))
  }

  lemma {:induction false} UpdateKnownKeys(v: Values, rest: seq<string>)
    requires rest != []
    ensures Update(v, ["address"] + rest) == v.(address := rest)
    ensures Update(v, ["gateway"] + rest) == v.(gateway := rest)
    ensures Update(v, ["dns-nameservers"] + rest) == v.(dns := rest)
  {
    assert "address"[0] == 'a' && "netmask"[0] == 'n' && "gateway"[0] == 'g' && "dns-nameservers"[0] == 'd';
  }

  /** Reading a stanza of static addressing: its settings so far have these values. */
  ghost predicate StaticScan(st: Scan, v: Values) {
    st.open && st.stanza.Some? && st.stanza.value.static_ && ValuesOf(st.stanza.value.settings) == v
  }

  lemma {:induction false} ScanSetting(st: Scan, name: string, key: string, value: string, line: string, v: Values)
    requires IsWord(key) && StaticScan(st, v)
    requires line == "\t" + key + " " + value
    ensures StaticScan(ScanFrom(st, [line], name),
                       if Fields(value) == [] then v else Update(v, [key] + Fields(value)))
  {
    OptionFields(key, value);
    assert [line][..0] == [];
    assert !IsEntry(line);
    if Fields(value) != [] {
      ValuesOfSnoc(st.stanza.value.settings, line);
    }
  }

  function Word(w: string): seq<string> {
    if w == "" then [] else [w]
  }

  lemma {:induction false} ScanAddress(st: Scan, name: string, address: string, v: Values)
    requires SpaceFree(address) && StaticScan(st, v) && v.address == []
    ensures StaticScan(ScanFrom(st, if address != "" then ["\taddress " + address] else [], name),
                       v.(address := Word(address)))
  {
    if address != "" {
      assert "\t" + "address" + " " == "\taddress ";
      ScanSetting(st, name, "address", address, "\taddress " + address, v);
      FieldsOfWord(address);
      UpdateKnownKeys(v, [address]);
    }
  }

  lemma {:induction false} ScanGateway(st: Scan, name: string, gateway: string, v: Values)
    requires SpaceFree(gateway) && StaticScan(st, v) && v.gateway == []
    ensures StaticScan(ScanFrom(st, if gateway != "" then ["\tgateway " + gateway] else [], name),
                       v.(gateway := Word(gateway)))
  {
    if gateway != "" {
      assert "\t" + "gateway" + " " == "\tgateway ";
      ScanSetting(st, name, "gateway", gateway, "\tgateway " + gateway, v);
      FieldsOfWord(gateway);
      UpdateKnownKeys(v, [gateway]);
    }
  }

  lemma {:induction false} ScanDns(st: Scan, name: string, dns: seq<string>, v: Values)
    requires (forall d | d in dns :: SpaceFree(d)) && StaticScan(st, v) && v.dns == []
    ensures StaticScan(ScanFrom(st, if dns != [] then ["\tdns-nameservers " + Join(dns, " ")] else [], name),
                       v.(dns := NonEmpty(dns)))
  {
    if dns != [] {
      var value := Join(dns, " ");
      assert "\t" + "dns-nameservers" + " " == "\tdns-nameservers ";
      ScanSetting(st, name, "dns-nameservers", value, "\tdns-nameservers " + value, v);
      FieldsOfJoin(dns);
      if NonEmpty(dns) != [] {
        UpdateKnownKeys(v, NonEmpty(dns));
      }
    }
  }

  lemma {:induction false} ScanStaticSettings(name: string, cfg: IfaceConfig)
    requires SpaceFreeValues(cfg) && !cfg.dhcp
    ensures StaticScan(ScanFrom(Scan(true, Some(Stanza(true, []))), SettingLines(cfg), name),
                       Values(Word(cfg.address), [], Word(cfg.gateway), NonEmpty(cfg.dns)))
  {
    var st := Scan(true, Some(Stanza(true, [])));
    var a := if cfg.address != "" then ["\taddress " + cfg.address] else [];
    var g := if cfg.gateway != "" then ["\tgateway " + cfg.gateway] else [];
    var d := if cfg.dns != [] then ["\tdns-nameservers " + Join(cfg.dns, " ")] else [];
    ScanAddress(st, name, cfg.address, Values([], [], [], []));
    ScanGateway(ScanFrom(st, a, name), name, cfg.gateway, Values(Word(cfg.address), [], [], []));
    ScanConcat(st, a, g, name);
    ScanDns(ScanFrom(st, a + g, name), name, cfg.dns, Values(Word(cfg.address), [], Word(cfg.gateway), []));
    ScanConcat(st, a + g, d, name);
  }

  /** Whatever came before, the built stanza decides what is read for its interface. */
  lemma {:induction false} ScanBuilt(st: Scan, name: string, cfg: IfaceConfig)
    requires IsWord(name)
    ensures ScanFrom(st, StanzaLines(name, cfg) + [""], name) ==
            ScanFrom(Scan(true, Some(Stanza(!cfg.dhcp, []))), SettingLines(cfg), name)
  {
    var auto, header := "auto " + name, StanzaLines(name, cfg)[1];
    AutoFields(name);
    HeaderFields(name, cfg);
    assert [auto, header][..1] == [auto] && [auto][..0] == [];
    assert OpensInet(header, name);
    assert ScanFrom(st, [auto, header], name) == Scan(true, Some(Stanza(!cfg.dhcp, [])));
    ScanConcat(st, [auto, header], SettingLines(cfg), name);
    assert (StanzaLines(name, cfg) + [""])[..|StanzaLines(name, cfg)|] == StanzaLines(name, cfg);
    assert !IsEntry("") && !IsSetting("");
  }

  lemma {:induction false} NonEmptyIsAll(parts: seq<string>)
    ensures |NonEmpty(parts)| <= |parts|
    ensures NonEmpty(parts) == parts <==> "" !in parts
  {
    if parts != [] {
      NonEmptyIsAll(parts[1..]);
      assert parts == [parts[0]] + parts[1..];
      if parts[0] != "" && NonEmpty(parts) == parts {
        assert NonEmpty(parts[1..]) == NonEmpty(parts)[1..];
      }
    }
  }

  /** Reading back a written configuration returns it, up to what the file cannot say. */
  lemma {:induction false} RoundTrip(data: string, name: string, cfg: IfaceConfig, prefix: string -> Int64)
    requires IsWord(name) && SpaceFreeValues(cfg)
    ensures Parsed(Rewritten(data, name, Built(name, cfg)), name, prefix) == Normal(cfg)
    ensures Normal(cfg) == cfg <==>
              if cfg.dhcp then cfg.address == "" && cfg.gateway == "" && cfg.dns == [] else "" !in cfg.dns
  {
    var before := TrimBlank(Kept(Lines(data), name)) + [""];
    LinesOfRewritten(data, name, Built(name, cfg));
    LinesOfBuilt(name, cfg);
    ScanConcat(UNSEEN, before, StanzaLines(name, cfg) + [""], name);
    ScanBuilt(ScanFrom(UNSEEN, before, name), name, cfg);
    if !cfg.dhcp {
      ScanStaticSettings(name, cfg);
      MeaningOfStatic(ScanFrom(Scan(true, Some(Stanza(true, []))), SettingLines(cfg), name), cfg, prefix);
    } else {
      assert SettingLines(cfg) == [];
    }
    NormalIsExact(cfg);
  }

  lemma {:induction false} MeaningOfStatic(st: Scan, cfg: IfaceConfig, prefix: string -> Int64)
    requires !cfg.dhcp
    requires StaticScan(st, Values(Word(cfg.address), [], Word(cfg.gateway), NonEmpty(cfg.dns)))
    ensures Meaning(st.stanza, prefix) == Normal(cfg)
  {
  }

  lemma {:induction false} NormalIsExact(cfg: IfaceConfig)
    ensures Normal(cfg) == cfg <==>
              if cfg.dhcp then cfg.address == "" && cfg.gateway == "" && cfg.dns == [] else "" !in cfg.dns
  {
    NonEmptyIsAll(cfg.dns);
  }
}
