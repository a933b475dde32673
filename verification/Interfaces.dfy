/** The /etc/network/interfaces file: reading one interface's configuration, and replacing its
    stanza. The other lines stay, except that an auto/allow- line goes as a whole even when it names
    other interfaces too. */
module Interfaces {
  import opened Decimal
  import opened Text
  import opened Wrappers

  datatype IfaceConfig = IfaceConfig(dhcp: bool, address: string, gateway: string, dns: seq<string>)

  // ------------------------------------------------------ what a line can be

  /** An indented line. */
  predicate IsOption(line: string) {
    line != "" && (line[0] == ' ' || line[0] == '\t')
  }

  /** A line that starts an entry: not indented, not blank, not a comment. */
  predicate IsEntry(line: string) {
    !IsOption(line) && TrimSpace(line) != "" && TrimSpace(line)[0] != '#'
  }

  function LineFields(line: string): seq<string> {
    Fields(TrimSpace(line))
  }

  /** An indented line that carries a key and a value. */
  predicate IsSetting(line: string) {
    IsOption(line) && |LineFields(line)| >= 2
  }

  /** `iface <name> inet <method>`: the entry the parser reads settings under. */
  predicate OpensInet(line: string, name: string) {
    && IsEntry(line)
    && var f := LineFields(line);
    |f| >= 4 && f[0] == "iface" && f[1] == name && f[2] == "inet"
  }

  predicate HasPrefix(s: string, p: string) {
    p <= s
  }

  /** `auto ...` or `allow-... ...` with `name` among the names. */
  predicate NamesAuto(f: seq<string>, name: string) {
    |f| >= 2 && (f[0] == "auto" || HasPrefix(f[0], "allow-")) && name in f[1..]
  }

  /** `iface <name> ...` of any address family. */
  predicate NamesIface(f: seq<string>, name: string) {
    |f| >= 2 && f[0] == "iface" && f[1] == name
  }

  predicate DropsAuto(line: string, name: string) {
    IsEntry(line) && NamesAuto(LineFields(line), name)
  }

  predicate DropsIface(line: string, name: string) {
    IsEntry(line) && !NamesAuto(LineFields(line), name) && NamesIface(LineFields(line), name)
  }

  // ----------------------------------------------------- the parser, declared

  /** The last inet stanza of an interface: its method, and its settings in order. */
  datatype Stanza = Stanza(static_: bool, settings: seq<string>)

  datatype Scan = Scan(open: bool, stanza: Option<Stanza>)

  function ScanStep(st: Scan, line: string, name: string): Scan {
    if OpensInet(line, name) then Scan(true, Some(Stanza(LineFields(line)[3] == "static", [])))
    else if IsEntry(line) then st.(open := false)
    else if st.open && IsSetting(line) && st.stanza.Some? then
      st.(stanza := Some(st.stanza.value.(settings := st.stanza.value.settings + [line])))
    else st
  }

  function ScanFrom(st: Scan, lines: seq<string>, name: string): Scan {
    if lines == [] then st
    else ScanStep(ScanFrom(st, lines[..|lines| - 1], name), lines[|lines| - 1], name)
  }

  const UNSEEN := Scan(false, None)

  /** The last inet stanza of `name` in the file. */
  function LastStanza(lines: seq<string>, name: string): Option<Stanza> {
    ScanFrom(UNSEEN, lines, name).stanza
  }

  /** The fields after `key` in its last setting. */
  function LastValue(settings: seq<string>, key: string): seq<string> {
    if settings == [] then []
    else
      var f := LineFields(settings[|settings| - 1]);
      if |f| >= 2 && f[0] == key then f[1..] else LastValue(settings[..|settings| - 1], key)
  }

  /** The last value of each key the parser knows. */
  datatype Values = Values(address: seq<string>, netmask: seq<string>, gateway: seq<string>, dns: seq<string>)

  function ValuesOf(settings: seq<string>): Values {
    Values(LastValue(settings, "address"), LastValue(settings, "netmask"),
           LastValue(settings, "gateway"), LastValue(settings, "dns-nameservers"))
  }

  function Update(v: Values, f: seq<string>): Values
    requires |f| >= 2
  {
    Values(if f[0] == "address" then f[1..] else v.address,
           if f[0] == "netmask" then f[1..] else v.netmask,
           if f[0] == "gateway" then f[1..] else v.gateway,
           if f[0] == "dns-nameservers" then f[1..] else v.dns)
  }

  lemma {:induction false} ValuesOfSnoc(settings: seq<string>, line: string)
    requires |LineFields(line)| >= 2
    ensures ValuesOf(settings + [line]) == Update(ValuesOf(settings), LineFields(line))
  {
    assert (settings + [line])[..|settings|] == settings;
  }

  function FirstOr(fields: seq<string>): string {
    if fields == [] then "" else fields[0]
  }

  /** `prefix` turns a dotted netmask into a prefix length, 0 when it is not one. */
  function FullAddress(addr: string, netmask: string, prefix: string -> Int64): string {
    if '/' in addr || addr == "" || netmask == "" || prefix(netmask) <= 0 then addr
    else addr + "/" + Itoa(prefix(netmask))
  }

  function Meaning(stanza: Option<Stanza>, prefix: string -> Int64): IfaceConfig {
    match stanza
    case None => IfaceConfig(true, "", "", [])
    case Some(s) =>
      var v := ValuesOf(s.settings);
      if !s.static_ then IfaceConfig(true, "", "", [])
      else IfaceConfig(false, FullAddress(FirstOr(v.address), FirstOr(v.netmask), prefix), FirstOr(v.gateway), v.dns)
  }

  /** What the file says about `name`. */
  function Parsed(data: string, name: string, prefix: string -> Int64): IfaceConfig {
    Meaning(LastStanza(Lines(data), name), prefix)
  }

  // ---------------------------------------------------- the rewriter, declared

  datatype Rewrite = Rewrite(skipping: bool, kept: seq<string>)

  function RewriteStep(st: Rewrite, line: string, name: string): Rewrite {
    if st.skipping && IsOption(line) then st
    else if DropsAuto(line, name) then st.(skipping := false)
    else if DropsIface(line, name) then st.(skipping := true)
    else Rewrite(st.skipping && !IsEntry(line), st.kept + [line])
  }

  function RewriteFrom(st: Rewrite, lines: seq<string>, name: string): Rewrite {
    if lines == [] then st
    else RewriteStep(RewriteFrom(st, lines[..|lines| - 1], name), lines[|lines| - 1], name)
  }

  const FRESH := Rewrite(false, [])

  /** The lines that survive the removal of `name`. */
  function Kept(lines: seq<string>, name: string): seq<string> {
    RewriteFrom(FRESH, lines, name).kept
  }

  function TrimBlank(lines: seq<string>): seq<string> {
    if lines != [] && TrimSpace(lines[|lines| - 1]) == "" then TrimBlank(lines[..|lines| - 1]) else lines
  }

  function Rewritten(data: string, name: string, newStanza: string): string {
    Join(TrimBlank(Kept(Lines(data), name)) + ["", newStanza], "\n")
  }

  // -------------------------------------------------------- the stanza builder

  /** The setting lines of a stanza for `cfg`. */
  function SettingLines(cfg: IfaceConfig): seq<string> {
    if cfg.dhcp then []
    else (if cfg.address != "" then ["\taddress " + cfg.address] else [])
         + (if cfg.gateway != "" then ["\tgateway " + cfg.gateway] else [])
         + (if cfg.dns != [] then ["\tdns-nameservers " + Join(cfg.dns, " ")] else [])
  }

  function StanzaLines(name: string, cfg: IfaceConfig): seq<string> {
    ["auto " + name, "iface " + name + if cfg.dhcp then " inet dhcp" else " inet static"] + SettingLines(cfg)
  }

  /** The built stanza: its lines, each ended by a newline. */
  function Built(name: string, cfg: IfaceConfig): string {
    Join(StanzaLines(name, cfg) + [""], "\n")
  }

  // ------------------------------------------------------------- the methods

  /** The parser's variables say what the stanza scanned so far says. */
  ghost predicate Mirrors(st: Scan, open: bool, cfg: IfaceConfig, addr: string, netmask: string, gateway: string,
                          dns: seq<string>)
  {
    && open == st.open
    && match st.stanza
       case None => !open && cfg == IfaceConfig(true, "", "", [])
       case Some(s) =>
         var v := ValuesOf(s.settings);
         && cfg == IfaceConfig(!s.static_, "", "", [])
         && addr == FirstOr(v.address) && netmask == FirstOr(v.netmask)
         && gateway == FirstOr(v.gateway) && dns == v.dns
  }

  /** How the variables must change for each kind of line. */
  lemma {:induction false} StepMirrors(st: Scan, line: string, name: string, open: bool, cfg: IfaceConfig, addr: string,
                    netmask: string, gateway: string, dns: seq<string>)
    requires Mirrors(st, open, cfg, addr, netmask, gateway, dns)
    ensures OpensInet(line, name) ==>
              Mirrors(ScanStep(st, line, name), true, IfaceConfig(LineFields(line)[3] != "static", "", "", []),
                      "", "", "", [])
    ensures IsEntry(line) && !OpensInet(line, name) ==>
              Mirrors(ScanStep(st, line, name), false, cfg, addr, netmask, gateway, dns)
    ensures !IsEntry(line) && open && IsSetting(line) ==>
              var f := LineFields(line);
              Mirrors(ScanStep(st, line, name), true, cfg,
                      if f[0] == "address" then f[1] else addr,
                      if f[0] == "netmask" then f[1] else netmask,
                      if f[0] == "gateway" then f[1] else gateway,
                      if f[0] == "dns-nameservers" then f[1..] else dns)
    ensures !IsEntry(line) && !(open && IsSetting(line)) ==>
              Mirrors(ScanStep(st, line, name), open, cfg, addr, netmask, gateway, dns)
  {
    if !IsEntry(line) && open && IsSetting(line) {
      ValuesOfSnoc(st.stanza.value.settings, line);
    }
  }

  method ParseIfacesFile(data: string, name: string, prefix: string -> Int64) returns (cfg: IfaceConfig)
    ensures cfg == Parsed(data, name, prefix)
  {
    cfg := IfaceConfig(true, "", "", []);
    var inIface := false;
    var addr, netmask, gateway := "", "", "";
    var dns: seq<string> := [];
    var lines := Lines(data);
    ghost var st := UNSEEN;
    for i := 0 to |lines|
      invariant st == ScanFrom(UNSEEN, lines[..i], name)
      invariant Mirrors(st, inIface, cfg, addr, netmask, gateway, dns)
    {
      var line := lines[i];
      assert lines[..i + 1][..i] == lines[..i];
      StepMirrors(st, line, name, inIface, cfg, addr, netmask, gateway, dns);
      st := ScanStep(st, line, name);
      var isOption := line != "" && (line[0] == ' ' || line[0] == '\t');
      var trimmed := TrimSpace(line);
      var fields := Fields(trimmed);
      if !isOption && trimmed != "" && trimmed[0] != '#' {
        inIface := false;
        if |fields| >= 4 && fields[0] == "iface" && fields[1] == name && fields[2] == "inet" {
          inIface := true;
          cfg := IfaceConfig(fields[3] != "static", "", "", []);
          addr, netmask, gateway, dns := "", "", "", [];
        }
      } else if inIface && isOption && |fields| >= 2 {
        if fields[0] == "address" {
          addr := fields[1];
        } else if fields[0] == "netmask" {
          netmask := fields[1];
        } else if fields[0] == "gateway" {
          gateway := fields[1];
        } else if fields[0] == "dns-nameservers" {
          dns := fields[1..];
        }
      }
    }
    assert lines[..|lines|] == lines;
    if !cfg.dhcp {
      var address := ResolveAddress(addr, netmask, prefix);
      cfg := cfg.(address := address, gateway := gateway, dns := dns);
    }
  }

  method ResolveAddress(addr: string, netmask: string, prefix: string -> Int64) returns (address: string)
    ensures address == FullAddress(addr, netmask, prefix)
  {
    if '/' in addr {
      address := addr;
    } else if addr != "" && netmask != "" {
      var ones := prefix(netmask);
      if ones > 0 {
        address := addr + "/" + Itoa(ones);
      } else {
        address := addr;
      }
    } else {
      address := addr;
    }
  }

  method NamesAutoOf(fields: seq<string>, name: string) returns (drop: bool)
    ensures drop == NamesAuto(fields, name)
  {
    drop := false;
    if |fields| >= 2 && (fields[0] == "auto" || HasPrefix(fields[0], "allow-")) {
      for k := 1 to |fields|
        invariant !drop && name !in fields[1..k]
      {
        if fields[k] == name {
          drop := true;
          break;
        }
      }
      assert !drop ==> fields[1..] == fields[1..|fields|];
    }
  }

  method RewriteIfacesFile(data: string, name: string, newStanza: string) returns (r: string)
    ensures r == Rewritten(data, name, newStanza)
  {
    var lines := Lines(data);
    var kept: seq<string> := [];
    var inIface := false;
    for i := 0 to |lines|
      invariant RewriteFrom(FRESH, lines[..i], name) == Rewrite(inIface, kept)
    {
      var line := lines[i];
      assert lines[..i + 1][..i] == lines[..i];
      var isOption := line != "" && (line[0] == ' ' || line[0] == '\t');
      var trimmed := TrimSpace(line);
      var drop := inIface && isOption;
      if !isOption && trimmed != "" && trimmed[0] != '#' {
        var fields := Fields(trimmed);
        var auto := NamesAutoOf(fields, name);
        inIface := !auto && |fields| >= 2 && fields[0] == "iface" && fields[1] == name;
        drop := auto || inIface;
      }
      if !drop {
        kept := kept + [line];
      }
    }
    assert lines[..|lines|] == lines;
    ghost var all := kept;
    while kept != [] && TrimSpace(kept[|kept| - 1]) == ""
      invariant TrimBlank(kept) == TrimBlank(all)
      decreases |kept|
    {
      kept := kept[..|kept| - 1];
    }
    r := Join(kept + ["", newStanza], "\n");
  }

  lemma {:induction false} JoinLine(done: seq<string>, line: string)
    ensures Join(done + [line] + [""], "\n") == Join(done + [""], "\n") + line + "\n"
  {
    if done == [] {
      assert done + [line] + [""] == [line, ""];
      assert Join([line, ""], "\n") == line + "\n" + "";
    } else {
      JoinSnoc(done + [line], "", "\n");
      JoinSnoc(done, line, "\n");
      JoinSnoc(done, "", "\n");
    }
  }

  method BuildIfaceStanza(name: string, cfg: IfaceConfig) returns (sb: string)
    ensures sb == Built(name, cfg)
  {
    ghost var done: seq<string> := [];
    sb := "";
    JoinLine(done, "auto " + name);
    done, sb := done + ["auto " + name], sb + ("auto " + name) + "\n";
    if cfg.dhcp {
      JoinLine(done, "iface " + name + " inet dhcp");
      done, sb := done + ["iface " + name + " inet dhcp"], sb + ("iface " + name + " inet dhcp") + "\n";
      assert done == StanzaLines(name, cfg);
    } else {
      JoinLine(done, "iface " + name + " inet static");
      done, sb := done + ["iface " + name + " inet static"], sb + ("iface " + name + " inet static") + "\n";
      ghost var head := done;
      if cfg.address != "" {
        JoinLine(done, "\taddress " + cfg.address);
        done, sb := done + ["\taddress " + cfg.address], sb + ("\taddress " + cfg.address) + "\n";
      }
      ghost var a := if cfg.address != "" then ["\taddress " + cfg.address] else [];
      assert done == head + a;
      if cfg.gateway != "" {
        JoinLine(done, "\tgateway " + cfg.gateway);
        done, sb := done + ["\tgateway " + cfg.gateway], sb + ("\tgateway " + cfg.gateway) + "\n";
      }
      ghost var g := if cfg.gateway != "" then ["\tgateway " + cfg.gateway] else [];
      assert done == head + (a + g);
      if |cfg.dns| > 0 {
        JoinLine(done, "\tdns-nameservers " + Join(cfg.dns, " "));
        done, sb := done + ["\tdns-nameservers " + Join(cfg.dns, " ")],
                    sb + ("\tdns-nameservers " + Join(cfg.dns, " ")) + "\n";
      }
      ghost var d := if cfg.dns != [] then ["\tdns-nameservers " + Join(cfg.dns, " ")] else [];
      assert done == head + (a + g + d);
      assert done == StanzaLines(name, cfg);
    }
  }
}
