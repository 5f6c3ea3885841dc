/** The phone table in memory, written through to its file. */
module PhoneRecords {
  import opened ItemLookup
  import opened Items
  import opened Json
  import opened Memory
  import opened Options
  import opened PhoneFile
  import opened PhoneTable
  import opened Sequences
  import CString
  import ItemParser
  import Parser

  /** A pointer to a record is the index of its slot, and -1 for `NULL`. */
  class Records {
    var slots: array<Slot>
    var file: File

    ghost predicate Valid()
      reads this, slots
    {
      Framed(slots[..])
    }

    ghost function State(): Table
      reads this, slots
    {
      Table(slots[..], file)
    }

    /**
      `spRec_Init` and `_spRec_ParseFile`: the slots are found free, and filled from the file if there is one. What
      lies behind the file in memory is `junk`. Nothing is said of the table if reading the file crashes.
     */
    constructor (h: Heap, blank: seq<Slot>, file: File, junk: string)
      requires AllFree(blank) && (file.Text? ==> Readable(file.text + junk))
      modifies h
      ensures Valid() && fresh(slots) && this.file == file
      ensures h.failures == old(h.failures) && (file.Text? ==> Parser.ParseText(file.text + junk, false).Ok?) ==>
        State() == Restart(blank, file, junk)
    {
      slots := new Slot[|blank|](i requires 0 <= i < |blank| => blank[i]);
      this.file := file;
      new;
      assert slots[..] == blank;
      if file.Text? {
        var _ := ParsePhones(h, file.text + junk);
      }
    }

    /**
      `_spRec_ParsePhones`. It crashes, because the missing root is followed, exactly if the text does not parse or an
      allocation has failed. Otherwise the tree is freed if the list is found in it, and stays allocated if not.
     */
    method ParsePhones(h: Heap, data: string) returns (crashed: bool)
      requires Valid() && Readable(data)
      modifies h, slots
      ensures Valid() && Accounted(!crashed, Parser.ParseText(data, false).Fail?, old(h.failures), h.failures)
      ensures crashed ==> slots[..] == old(slots[..]) && h.live == old(h.live)
      ensures !crashed ==>
        var r := Parser.ParseText(data, false);
        && r.Ok? && slots[..] == Load(old(slots[..]), r.value)
        && (if Lookup(r.value, "phones").Some? then h.live == old(h.live) else h.live > old(h.live))
    {
      hide Is, Holds, NamesFit, FootAll, Load, Lookup, Parser.ParseText, ReadableList;
      var root, _, owned := ItemParser.ParseWithOpts(h, data, false);
      crashed := root == null;
      if root != null {
        ghost var v := Parser.ParseText(data, false).value;
        RootIs(root, owned);
        NodeIn(owned[0]);
        ghost var foot := owned[0].foot;
        assert old(h.live) !! foot && h.live - foot == old(h.live);
        ReadPhones(h, root, owned, v);
      }
    }

    /** What is done with the tree that has been parsed. */
    method ReadPhones(h: Heap, root: Item, ghost owned: seq<Shape>, ghost v: Json)
      requires Valid() && |owned| == 1 && Forward(root, owned) && IsAll(owned) && Holds(owned[0], v) && NamesFit(owned[0], v)
      requires match Lookup(v, "phones") case Some(w) => ReadableList(w) case None => true
      requires this !in owned[0].foot && slots !in owned[0].foot && h !in owned[0].foot && owned[0].foot <= h.live
      modifies h, slots, owned[0].foot
      ensures Valid() && slots[..] == Load(old(slots[..]), v) && h.failures == old(h.failures)
      ensures h.live == if Lookup(v, "phones").Some? then old(h.live) - owned[0].foot else old(h.live)
    {
      hide Is, Holds, NamesFit, FootAll, Load, Lookup, ReadableList;
      RootIs(root, owned);
      KidCount(owned[0], v);
      NamesEnd(v);
      ChildrenLinked(owned[0]);
      var list, at := GetObjectItem(root, "phones", owned[0].kids);
      FoundMember(owned[0], v, "phones", at);
      LoadList(slots[..], v);
      if list != null {
        KidHolds(owned[0], v, at);
        KidNamesFit(owned[0], v, at);
        FillSlots(list, owned[0].kids[at], KidValues(v)[at]);
        Delete(h, root, owned);
      }
    }

    /** The loop over the records in the list. */
    method FillSlots(list: Item, ghost sh: Shape, ghost w: Json)
      requires Valid() && Is(sh) && Holds(sh, w) && NamesFit(sh, w) && list == sh.node && ReadableList(w) && slots !in sh.foot
      modifies slots
      ensures Valid() && |KidValues(w)| == |sh.kids|
      ensures slots[..] == Filled(old(slots[..]), KidValues(w), Min(|KidValues(w)|, slots.Length - 1))
    {
      hide Is, Holds, NamesFit, FootAll, LinkedTo, KidValues, ReadPhone, ReadableList, ReadablePhone;
      ghost var was := slots[..];
      KidCount(sh, w);
      ChildrenLinked(sh);
      var nRecords := GetArraySize(list, sh.kids);
      if nRecords > slots.Length - 1 {
        nRecords := slots.Length - 1;
      }
      for i := 0 to nRecords
        invariant Is(sh) && Holds(sh, w) && Valid()
        invariant forall j :: 0 <= j < slots.Length ==>
          slots[j] == if j < i then Slot(Live, ReadPhone(KidValues(w)[j], was[j].phone)) else was[j]
      {
        ChildrenLinked(sh);
        var subitem := GetArrayItem(list, i, sh.kids);
        KidHolds(sh, w, i);
        KidNamesFit(sh, w, i);
        ReadableKid(w, i);
        var phone := ReadRecord(subitem, slots[i].phone, sh.kids[i], KidValues(w)[i]);
        slots[i] := Slot(Live, phone);
      }
      assert slots[..] == Filled(was, KidValues(w), nRecords);
    }

    /** `spRec_GetNextRecord` */
    method GetNextRecord(sptr: int) returns (r: int)
      requires Valid() && -1 <= sptr < slots.Length
      ensures r == -1 || (sptr < r < slots.Length - 1 && slots[r].use == Live)
      ensures forall j :: sptr < j < (if r < 0 then slots.Length else r) ==> slots[j].use != Live
    {
      assert slots.Length == |slots[..]| && forall i :: 0 <= i < slots.Length ==> slots[i] == slots[..][i];
      var p := 0;
      if sptr != -1 {
        if slots[sptr].use == Past {
          return -1;
        }
        p := sptr + 1;
      }
      while slots[p].use != Past
        invariant 0 <= p < slots.Length && sptr < p
        invariant forall j :: sptr < j < p ==> slots[j].use != Live
        decreases slots.Length - p
      {
        if slots[p].use == Live {
          return p;
        }
        p := p + 1;
      }
      return -1;
    }

    /** `spRec_FindIP` */
    method FindIP(ip: string) returns (r: int)
      requires Valid()
      ensures r == PhoneTable.FindIP(slots[..], ip, 0)
    {
      r := GetNextRecord(-1);
      while r != -1
        invariant -1 <= r < slots.Length
        invariant r >= 0 ==> r < slots.Length - 1 && slots[r].use == Live
        invariant forall j :: 0 <= j < (if r < 0 then slots.Length else r) ==> slots[j].use != Live || slots[j].phone.ip != ip
        decreases if r < 0 then 0 else slots.Length - r
      {
        if slots[r].phone.ip == ip {
          return;
        }
        r := GetNextRecord(r);
      }
    }

    /** `spRec_RemoveIP` */
    method RemoveIP(ip: string)
      requires Valid()
      modifies this`file, slots
      ensures Valid() && State() == Remove(old(State()), ip)
    {
      var sptr := FindIP(ip);
      if sptr != -1 {
        slots[sptr] := slots[sptr].(use := Free);
        EncodePhones();
      }
    }

    /** `spRec_CheckStale` */
    method CheckStale(now: int, minutes: int)
      requires Valid()
      modifies this`file, slots
      ensures Valid() && State() == Expire(old(State()), now, minutes)
      ensures forall i :: 0 <= i < slots.Length ==> slots[i].phone == old(slots[i].phone)
      ensures forall i :: 0 <= i < slots.Length ==>
        (slots[i].use == Live <==> old(slots[i].use) == Live && now - slots[i].phone.seen <= minutes * 60)
    {
      ghost var was := slots[..];
      ghost var to := Expired(was, now, minutes);
      var dirty := false;
      var sptr := GetNextRecord(-1);
      while sptr != -1
        invariant -1 <= sptr < slots.Length && Valid() && file == old(file)
        invariant sptr >= 0 ==> slots[sptr].use == Live
        invariant forall j :: 0 <= j < (if sptr < 0 then slots.Length else sptr) ==> slots[j] == to[j]
        invariant sptr >= 0 ==> forall j :: sptr <= j < slots.Length ==> slots[j] == was[j]
        invariant dirty <==> exists j :: 0 <= j < slots.Length && slots[j] != was[j]
        decreases if sptr < 0 then 0 else slots.Length - sptr
      {
        if now - slots[sptr].phone.seen > minutes * 60 {
          slots[sptr] := slots[sptr].(use := Free);
          dirty := true;
          assert slots[sptr] != was[sptr];
        }
        sptr := GetNextRecord(sptr);
      }
      assert slots[..] == to;
      if dirty {
        EncodePhones();
      }
    }

    /** The records that share the address or the MAC, but not both, are removed. */
    method RemoveConflicts(ip: string, mac: string)
      requires Valid()
      modifies slots
      ensures Valid() && slots[..] == EvictAll(old(slots[..]), ip, mac)
    {
      ghost var was := slots[..];
      ghost var to := EvictAll(was, ip, mac);
      var sptr := GetNextRecord(-1);
      while sptr != -1
        invariant -1 <= sptr < slots.Length && Valid()
        invariant sptr >= 0 ==> slots[sptr].use == Live
        invariant forall j :: 0 <= j < (if sptr < 0 then slots.Length else sptr) ==> slots[j] == to[j]
        invariant sptr >= 0 ==> forall j :: sptr <= j < slots.Length ==> slots[j] == was[j]
        decreases if sptr < 0 then 0 else slots.Length - sptr
      {
        var sameMac := slots[sptr].phone.mac == mac;
        var sameIP := slots[sptr].phone.ip == ip;
        if (sameMac && !sameIP) || (sameIP && !sameMac) {
          slots[sptr] := slots[sptr].(use := Free);
        }
        sptr := GetNextRecord(sptr);
      }
    }

    /** `spRec_AddRecord`: 0, or -1 if there is no room. */
    method AddRecord(ip: string, mac: string, line: int, now: int) returns (r: int)
      requires Valid()
      modifies this`file, slots
      ensures Valid()
      ensures var (t, ok) := Register(old(State()), ip, mac, line, now); State() == t && r == (if ok then 0 else -1)
    {
      RemoveConflicts(ip, mac);
      ghost var evicted := slots[..];
      var sptr := FindIP(ip);
      if sptr != -1 {
        slots[sptr] := slots[sptr].(phone := slots[sptr].phone.(seen := now));
      } else {
        sptr := 0;
        while slots[sptr].use != Free && slots[sptr].use != Past
          invariant 0 <= sptr < slots.Length && forall j :: 0 <= j < sptr ==> slots[j].use == Live
          decreases slots.Length - sptr
        {
          sptr := sptr + 1;
        }
        assert sptr == FirstFree(evicted, 0);
        if slots[sptr].use == Past {
          return -1;
        }
        slots[sptr] := Slot(Live, Phone(Field(mac), Field(ip), line, now));
      }
      EncodePhones();
      r := 0;
    }

    /** `_spRec_EncodePhones` */
    method EncodePhones()
      requires Valid()
      modifies this`file
      ensures file == Text(FileText(Phones(slots[..])))
    {
      hide *;
      ghost var all := slots[..];
      ghost var ps, n := LiveFrom(all, 0), 0;
      FirstText(all);
      var out := "{\"phones\": [\n";
      var sptr := GetNextRecord(-1);
      NextPhone(all, -1, sptr);
      assert ps[0..] == ps;
      while sptr != -1
        invariant -1 <= sptr < slots.Length && n <= |ps| && (sptr == -1 <==> n == |ps|)
        invariant Valid() && slots[..] == all && (sptr >= 0 ==> slots[sptr].use == Live && LiveFrom(all, sptr) == ps[n..])
        invariant out + TextFrom(ps, n) == FileText(ps)
        decreases if sptr < 0 then 0 else slots.Length - sptr
      {
        var next := GetNextRecord(sptr);
        NextPhone(all, sptr, next);
        NextPhone(all, sptr - 1, sptr);
        Advance(ps, n, slots[sptr].phone, LiveFrom(all, sptr + 1));
        out := EncodePhone(out, slots[sptr].phone, next != -1, ps, n);
        sptr, n := next, n + 1;
      }
      LastText(out, ps);
      file := Text(out + "]}\n");
    }

    /** One record, and what separates it from the next one. */
    method EncodePhone(text: string, p: Phone, more: bool, ghost ps: seq<Phone>, ghost n: nat) returns (out: string)
      requires n < |ps| && p == ps[n] && (more <==> n + 1 < |ps|)
      requires text + TextFrom(ps, n) == FileText(ps)
      ensures out + TextFrom(ps, n + 1) == FileText(ps)
    {
      hide TextFrom, FileText, CString.Signed;
      out := text + "\t{\n";
      out := out + ("\t\t\"mac\" : " + ("\"" + p.mac + "\"") + ",\n");
      out := out + ("\t\t\"ip_addr\" : " + ("\"" + p.ip + "\"") + ",\n");
      out := out + ("\t\t\"line_number\" : " + CString.Signed(p.line) + ",\n");
      out := out + ("\t\t\"last_seen\" : " + CString.Signed(p.seen) + "\n");
      out := out + "\t}";
      WholePhone(text, p);
      if more {
        out := out + ",";
      } else {
        assert out + "" == out;
      }
      out := out + "\n";
      NextRecordText(text, ps, n);
    }
  }

  // ---------- Reading ----------

  /** A field that is there has the type that it is read with. */
  predicate ReadablePhone(v: Json) {
    && (Lookup(v, "MAC").Some? ==> Lookup(v, "MAC").value.String?)
    && (Lookup(v, "ip_addr").Some? ==> Lookup(v, "ip_addr").value.String?)
    && (Lookup(v, "line_number").Some? ==> IsInt(Lookup(v, "line_number").value))
    && (Lookup(v, "last_seen").Some? ==> IsInt(Lookup(v, "last_seen").value))
  }

  predicate IsInt(v: Json) {
    v.Number? && v.exponent == 0 && Int32(v.mantissa)
  }

  predicate ReadableList(w: Json) {
    forall i :: 0 <= i < |KidValues(w)| ==> ReadablePhone(KidValues(w)[i])
  }

  /** If the text holds a list of phones, each of its records can be read. */
  predicate Readable(data: string) {
    match Parser.ParseText(data, false)
    case Ok(v, _) => (match Lookup(v, "phones") case Some(w) => ReadableList(w) case None => true)
    case Fail => true
    case Outside => false
  }

  /** The child that a record is read from, and the member that it represents. */
  method GetMember(root: Item, what: string, ghost sh: Shape, ghost v: Json) returns (item: Item?, ghost at: int)
    requires Is(sh) && Holds(sh, v) && NamesFit(sh, v) && root == sh.node && '\0' !in what
    ensures at == Find(Members(v), what) && (item == null <==> at < 0)
    ensures at >= 0 ==> |sh.kids| == |KidValues(v)| && at < |sh.kids| && item == sh.kids[at].node
    ensures at >= 0 ==> Is(sh.kids[at]) && Holds(sh.kids[at], Members(v)[at].value)
  {
    hide Is, Holds, NamesFit, FootAll;
    KidCount(sh, v);
    ChildrenLinked(sh);
    item, at := GetObjectItem(root, what, sh.kids);
    FoundMember(sh, v, what, at);
    if at >= 0 {
      KidHolds(sh, v, at);
    }
  }

  /** `_spRec_GetStr` */
  method GetStr(root: Item, what: string, was: string, ghost sh: Shape, ghost v: Json) returns (dest: string)
    requires Is(sh) && Holds(sh, v) && NamesFit(sh, v) && root == sh.node && '\0' !in what
    requires Lookup(v, what).Some? ==> Lookup(v, what).value.String?
    ensures dest == ReadStr(v, what, was)
  {
    hide Is, Holds, NamesFit, FootAll;
    var item, at := GetMember(root, what, sh, v);
    if item == null {
      return was;
    }
    TextsEnd(sh.kids[at]);
    TextOf(sh.kids[at], Members(v)[at].value);
    var n := StrLen(item.valuestring, Members(v)[at].value.text);
    dest := Field(item.valuestring[..n]);
  }

  lemma TextOf(k: Shape, v: Json)
    requires Holds(k, v)
    ensures !k.node.isReference && (v.String? ==> k.text != null && HoldsText(k.text, v.text))
    ensures v.Number? ==> k.node.mantissa == v.mantissa
  {
  }

  /** `_spRec_GetInt` */
  method GetInt(root: Item, what: string, was: int, ghost sh: Shape, ghost v: Json) returns (dest: int)
    requires Is(sh) && Holds(sh, v) && NamesFit(sh, v) && root == sh.node && '\0' !in what
    requires Lookup(v, what).Some? ==> IsInt(Lookup(v, what).value)
    ensures dest == ReadInt(v, what, was)
  {
    hide Is, Holds, NamesFit, FootAll;
    var item, at := GetMember(root, what, sh, v);
    if item == null {
      return was;
    }
    TextOf(sh.kids[at], Members(v)[at].value);
    dest := item.mantissa;
  }

  method ReadRecord(subitem: Item, was: Phone, ghost sh: Shape, ghost v: Json) returns (p: Phone)
    requires Is(sh) && Holds(sh, v) && NamesFit(sh, v) && subitem == sh.node && ReadablePhone(v)
    ensures p == ReadPhone(v, was)
  {
    hide Is, Holds, NamesFit, FootAll, ReadStr, ReadInt;
    var mac := GetStr(subitem, "MAC", was.mac, sh, v);
    var ip := GetStr(subitem, "ip_addr", was.ip, sh, v);
    var line := GetInt(subitem, "line_number", was.line, sh, v);
    var seen := GetInt(subitem, "last_seen", was.seen, sh, v);
    p := Phone(mac, ip, line, seen);
  }

  /** The program can read every file that it has written. */
  lemma OwnFileReadable(ps: seq<Phone>, junk: string)
    requires AllWritable(ps)
    ensures Readable(FileText(ps) + junk) && Parser.ParseText(FileText(ps) + junk, false).Ok?
  {
    FileParses(ps, junk);
    var v := Object([Member("phones", Array(PhoneJsons(ps)))]);
    assert SameFolded(Members(v)[0].key, "phones");
    forall i | 0 <= i < |ps|
      ensures ReadablePhone(PhoneJsons(ps)[i])
    {
      LookupFields(ps[i]);
    }
    hide FileText, Parser.ParseText, PhoneJson;
  }

  lemma ReadableKid(w: Json, i: nat)
    requires ReadableList(w) && i < |KidValues(w)|
    ensures ReadablePhone(KidValues(w)[i])
  {
  }

  lemma RootIs(root: Item, owned: seq<Shape>)
    requires |owned| == 1 && Forward(root, owned) && IsAll(owned)
    ensures Is(owned[0]) && root == owned[0].node && FootAll(owned) == owned[0].foot
  {
    FootOne(owned[0]);
    assert owned == [owned[0]];
    hide Is;
  }

  lemma NamesEnd(v: Json)
    ensures '\0' !in "phones"
    ensures Find(Members(v), "phones") < 0 <==> Lookup(v, "phones").None?
    ensures Find(Members(v), "phones") >= 0 ==>
      v.Object? && Lookup(v, "phones") == Some(KidValues(v)[Find(Members(v), "phones")])
  {
  }

  lemma LoadList(slots: seq<Slot>, v: Json)
    requires Framed(slots)
    ensures Load(slots, v) == match Lookup(v, "phones")
      case None => slots
      case Some(w) => Filled(slots, KidValues(w), Min(|KidValues(w)|, |slots| - 1))
  {
  }

  // ---------- Writing ----------

  lemma Keys()
    ensures LineStart("mac") == "\t\t\"mac\" : " && LineStart("ip_addr") == "\t\t\"ip_addr\" : "
    ensures LineStart("line_number") == "\t\t\"line_number\" : " && LineStart("last_seen") == "\t\t\"last_seen\" : "
  {
  }

  lemma WholePhone(text: string, p: Phone)
    ensures text + "\t{\n" + ("\t\t\"mac\" : " + ("\"" + p.mac + "\"") + ",\n") +
      ("\t\t\"ip_addr\" : " + ("\"" + p.ip + "\"") + ",\n") +
      ("\t\t\"line_number\" : " + CString.Signed(p.line) + ",\n") +
      ("\t\t\"last_seen\" : " + CString.Signed(p.seen) + "\n") + "\t}" == text + PhoneText(p)
  {
    hide CString.Signed;
    Keys();
    var v1, v2 := "\"" + p.mac + "\"", "\"" + p.ip + "\"";
    var v3, v4 := CString.Signed(p.line), CString.Signed(p.seen);
    SixParts(text, "\t{\n", LineStart("mac") + v1 + ",\n", LineStart("ip_addr") + v2 + ",\n",
      LineStart("line_number") + v3 + ",\n", LineStart("last_seen") + v4 + "\n", "\t}");
    hide LineStart;
  }

  lemma SixParts(text: string, a: string, b: string, c: string, d: string, e: string, f: string)
    ensures text + a + b + c + d + e + f == text + (a + b + c + d + e + f)
  {
    Regroup(text, a + b + c + d + e, f);
    Regroup(text, a + b + c + d, e);
    Regroup(text, a + b + c, d);
    Regroup(text, a + b, c);
    Regroup(text, a, b);
  }

  lemma NextRecordText(text: string, ps: seq<Phone>, n: nat)
    requires n < |ps|
    ensures text + TextFrom(ps, n) == text + PhoneText(ps[n]) + (if n + 1 < |ps| then "," else "") + "\n" + TextFrom(ps, n + 1)
  {
    hide PhoneText;
    var p, comma, rest := PhoneText(ps[n]), if n + 1 < |ps| then "," else "", TextFrom(ps, n + 1);
    Regroup(text, p + comma + "\n", rest);
    Regroup(text, p + comma, "\n");
    Regroup(text, p, comma);
  }

  lemma Advance(ps: seq<Phone>, n: nat, p: Phone, rest: seq<Phone>)
    requires n <= |ps| && ps[n..] == [p] + rest
    ensures n < |ps| && ps[n] == p && ps[n + 1..] == rest && (rest == [] <==> n + 1 == |ps|)
  {
    assert ps[n..][1..] == rest;
  }

  lemma LastText(out: string, ps: seq<Phone>)
    ensures out + TextFrom(ps, |ps|) == out + "]}\n"
  {
  }

  lemma FirstText(slots: seq<Slot>)
    ensures Phones(slots) == LiveFrom(slots, 0)
    ensures "{\"phones\": [\n" + TextFrom(Phones(slots), 0) == FileText(Phones(slots))
  {
  }

  /** The record of the next live slot is the next live record. */
  lemma NextPhone(slots: seq<Slot>, from: int, to: int)
    requires -1 <= from < to < |slots| || (to == -1 && -1 <= from < |slots|)
    requires forall j :: from < j < (if to < 0 then |slots| else to) ==> slots[j].use != Live
    requires to >= 0 ==> slots[to].use == Live
    ensures LiveFrom(slots, from + 1) == if to < 0 then [] else LiveFrom(slots, to)
    ensures to >= 0 ==> LiveFrom(slots, to) == [slots[to].phone] + LiveFrom(slots, to + 1)
  {
    var i := if to < 0 then |slots| else to;
    while i > from + 1
      invariant from < i <= (if to < 0 then |slots| else to)
      invariant LiveFrom(slots, i) == if to < 0 then [] else LiveFrom(slots, to)
    {
      i := i - 1;
    }
  }
}
