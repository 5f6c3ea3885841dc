/** What the operations on the phone table do to the slots and to the file. */
module PhoneTable {
  import opened ItemLookup
  import opened Items
  import opened Json
  import opened Options
  import opened PhoneFile
  import Parser

  /** `in_use`: 0, 1, or -1 for the sentinel. */
  datatype Use = Free | Live | Past

  datatype Slot = Slot(use: Use, phone: Phone)

  /** The slots, and the text of the file if there is one. */
  datatype Table = Table(slots: seq<Slot>, file: File)

  datatype File = Missing | Text(text: string)

  /** The last slot and no other is the sentinel. */
  predicate Framed(slots: seq<Slot>) {
    slots != [] && forall i :: 0 <= i < |slots| ==> (slots[i].use == Past <==> i == |slots| - 1)
  }

  function LiveFrom(slots: seq<Slot>, i: nat): seq<Phone>
    requires i <= |slots|
    decreases |slots| - i
  {
    if i == |slots| then []
    else (if slots[i].use == Live then [slots[i].phone] else []) + LiveFrom(slots, i + 1)
  }

  /** The live records in slot order. */
  function Phones(slots: seq<Slot>): seq<Phone> {
    LiveFrom(slots, 0)
  }

  /** The first slot from `i` on that is live and has this address, or -1. */
  function FindIP(slots: seq<Slot>, ip: string, i: nat): (r: int)
    requires i <= |slots|
    ensures r == -1 || (i <= r < |slots| && slots[r].use == Live && slots[r].phone.ip == ip)
    ensures forall j :: i <= j < (if r < 0 then |slots| else r) ==> slots[j].use != Live || slots[j].phone.ip != ip
    decreases |slots| - i
  {
    if i == |slots| then -1
    else if slots[i].use == Live && slots[i].phone.ip == ip then i
    else FindIP(slots, ip, i + 1)
  }

  /** The first slot from `i` on that is not live. */
  function FirstFree(slots: seq<Slot>, i: nat): (r: nat)
    requires Framed(slots) && i < |slots|
    ensures i <= r < |slots| && slots[r].use != Live
    ensures forall j :: i <= j < r ==> slots[j].use == Live
    decreases |slots| - i
  {
    if slots[i].use != Live then i else FirstFree(slots, i + 1)
  }

  function Written(slots: seq<Slot>): Table {
    Table(slots, Text(FileText(Phones(slots))))
  }

  // ---------- The operations ----------

  /** A record that shares the address or the MAC, but not both, gives way. */
  function Evict(s: Slot, ip: string, mac: string): Slot {
    if s.use == Live && (s.phone.ip == ip) != (s.phone.mac == mac) then s.(use := Free) else s
  }

  function EvictAll(slots: seq<Slot>, ip: string, mac: string): (r: seq<Slot>)
    ensures |r| == |slots| && forall i :: 0 <= i < |r| ==> r[i] == Evict(slots[i], ip, mac)
  {
    seq(|slots|, i requires 0 <= i < |slots| => Evict(slots[i], ip, mac))
  }

  /** `spRec_AddRecord`, and whether it returns 0. */
  function Register(t: Table, ip: string, mac: string, line: int, now: int): (Table, bool)
    requires Framed(t.slots)
  {
    var slots := EvictAll(t.slots, ip, mac);
    var i := FindIP(slots, ip, 0);
    if i >= 0 then
      (Written(slots[i := slots[i].(phone := slots[i].phone.(seen := now))]), true)
    else
      var f := FirstFree(slots, 0);
      if slots[f].use == Past then (Table(slots, t.file), false)
      else (Written(slots[f := Slot(Live, Phone(Field(mac), Field(ip), line, now))]), true)
  }

  /** `spRec_RemoveIP` */
  function Remove(t: Table, ip: string): Table {
    var i := FindIP(t.slots, ip, 0);
    if i < 0 then t else Written(t.slots[i := t.slots[i].(use := Free)])
  }

  predicate Stale(p: Phone, now: int, minutes: int) {
    now - p.seen > minutes * 60
  }

  function Expired(slots: seq<Slot>, now: int, minutes: int): (r: seq<Slot>)
    ensures |r| == |slots|
    ensures forall i :: 0 <= i < |r| ==>
      r[i] == if slots[i].use == Live && Stale(slots[i].phone, now, minutes) then slots[i].(use := Free) else slots[i]
  {
    seq(|slots|, i requires 0 <= i < |slots| =>
      if slots[i].use == Live && Stale(slots[i].phone, now, minutes) then slots[i].(use := Free) else slots[i])
  }

  /** `spRec_CheckStale` */
  function Expire(t: Table, now: int, minutes: int): Table {
    var slots := Expired(t.slots, now, minutes);
    if slots == t.slots then t else Written(slots)
  }

  // ---------- Reading the file ----------

  /** The value of the first member whose key matches. */
  function Lookup(v: Json, key: string): Option<Json> {
    var i := Find(Members(v), key);
    if i < 0 then None else Some(Members(v)[i].value)
  }

  /** A field keeps its contents when the member is missing. */
  function ReadStr(v: Json, key: string, was: string): string {
    match Lookup(v, key)
    case Some(String(s)) => Field(s)
    case _ => was
  }

  function ReadInt(v: Json, key: string, was: int): int {
    match Lookup(v, key)
    case Some(Number(m, _)) => m
    case _ => was
  }

  function ReadPhone(v: Json, was: Phone): Phone {
    Phone(ReadStr(v, "MAC", was.mac), ReadStr(v, "ip_addr", was.ip), ReadInt(v, "line_number", was.line),
          ReadInt(v, "last_seen", was.seen))
  }

  function Min(a: nat, b: nat): nat {
    if a < b then a else b
  }

  /** The first `n` slots are filled from the list. */
  function Filled(slots: seq<Slot>, list: seq<Json>, n: nat): (r: seq<Slot>)
    requires n <= |list| && n <= |slots|
    ensures |r| == |slots|
  {
    seq(|slots|, i requires 0 <= i < |slots| => if i < n then Slot(Live, ReadPhone(list[i], slots[i].phone)) else slots[i])
  }

  /** `_spRec_ParsePhones`, given the parsed file. */
  function Load(slots: seq<Slot>, v: Json): seq<Slot>
    requires Framed(slots)
  {
    match Lookup(v, "phones")
    case None => slots
    case Some(w) => Filled(slots, KidValues(w), Min(|KidValues(w)|, |slots| - 1))
  }

  /** `spRec_Init`: all slots are free to begin with; what lies behind the file in memory is `junk`. */
  function Restart(blank: seq<Slot>, file: File, junk: string): Table
    requires Framed(blank)
  {
    if file.Missing? then Table(blank, file)
    else
      var r := Parser.ParseText(file.text + junk, false);
      if r.Ok? then Table(Load(blank, r.value), file) else Table(blank, file)
  }

  // ---------- The invariant ----------

  predicate Unique(slots: seq<Slot>) {
    forall i, j :: 0 <= i < j < |slots| && slots[i].use == Live && slots[j].use == Live ==>
      slots[i].phone.ip != slots[j].phone.ip && slots[i].phone.mac != slots[j].phone.mac
  }

  predicate LiveWritable(slots: seq<Slot>) {
    forall i :: 0 <= i < |slots| && slots[i].use == Live ==> Writable(slots[i].phone)
  }

  /** No two live records share an address or a MAC, and each can be written. */
  predicate Proper(slots: seq<Slot>) {
    Framed(slots) && Unique(slots) && LiveWritable(slots)
  }

  /** The file holds the live records; before the first write there is neither. */
  predicate Synced(t: Table) {
    if t.file.Missing? then Phones(t.slots) == [] else t.file.text == FileText(Phones(t.slots))
  }

  predicate Good(t: Table) {
    Proper(t.slots) && Synced(t)
  }

  predicate AllDifferent(ps: seq<Phone>) {
    forall i, j :: 0 <= i < j < |ps| ==> ps[i].ip != ps[j].ip && ps[i].mac != ps[j].mac
  }

  /** The first `n` records, or all if there are no more. */
  function First(ps: seq<Phone>, n: nat): seq<Phone> {
    if |ps| <= n then ps else ps[..n]
  }

  /** The records in the file. */
  function Recorded(file: File): seq<Phone> {
    if file.Missing? then []
    else
      match Parser.ParseText(file.text, false)
      case Ok(v, _) => Listed(v)
      case _ => []
  }

  function Listed(v: Json): seq<Phone> {
    match Lookup(v, "phones")
    case None => []
    case Some(w) =>
      seq(|KidValues(w)|, i requires 0 <= i < |KidValues(w)| => ReadPhone(KidValues(w)[i], Phone("", "", 0, 0)))
  }

  /** The program has written the file, and its records are pairwise different. */
  predicate OwnFile(file: File) {
    var ps := Recorded(file);
    AllWritable(ps) && AllDifferent(ps) && (file.Text? ==> file.text == FileText(ps))
  }

  /** The live records are the first ones of the file, as many as there is room for. */
  predicate Sound(t: Table) {
    Proper(t.slots) && OwnFile(t.file) && Phones(t.slots) == First(Recorded(t.file), |t.slots| - 1)
  }

  // ---------- Live records ----------

  lemma LiveStep(slots: seq<Slot>, i: nat)
    requires i < |slots|
    ensures LiveFrom(slots, i) == (if slots[i].use == Live then [slots[i].phone] else []) + LiveFrom(slots, i + 1)
  {
  }

  lemma LiveEnd(slots: seq<Slot>)
    ensures LiveFrom(slots, |slots|) == []
  {
  }

  lemma {:induction false} LiveIn(slots: seq<Slot>, i: nat, p: Phone)
    requires i <= |slots|
    ensures p in LiveFrom(slots, i) <==> exists j :: i <= j < |slots| && slots[j].use == Live && slots[j].phone == p
    decreases |slots| - i
  {
    hide LiveFrom;
    if i == |slots| {
      LiveEnd(slots);
    } else {
      LiveStep(slots, i);
      LiveIn(slots, i + 1, p);
    }
  }

  lemma {:induction false} LiveAllWritable(slots: seq<Slot>, i: nat)
    requires LiveWritable(slots) && i <= |slots|
    ensures AllWritable(LiveFrom(slots, i))
    decreases |slots| - i
  {
    if i < |slots| {
      LiveAllWritable(slots, i + 1);
    }
  }

  // ---------- Registering ----------

  /** The slot of this phone, or the first slot that is free once the conflicting records have gone. */
  function Target(t: Table, ip: string, mac: string): nat
    requires Framed(t.slots)
  {
    var slots := EvictAll(t.slots, ip, mac);
    var i := FindIP(slots, ip, 0);
    if i >= 0 then i else FirstFree(slots, 0)
  }

  /** Registering fails exactly if every slot holds a record that matches in neither part, and then does nothing. */
  lemma RegisterFails(t: Table, ip: string, mac: string, line: int, now: int)
    requires Framed(t.slots)
    ensures var r := Register(t, ip, mac, line, now);
      && (!r.1 <==> forall i :: 0 <= i < |t.slots| - 1 ==>
           t.slots[i].use == Live && t.slots[i].phone.ip != ip && t.slots[i].phone.mac != mac)
      && (!r.1 ==> r.0 == t)
  {
    var slots := EvictAll(t.slots, ip, mac);
    var i, f := FindIP(slots, ip, 0), FirstFree(slots, 0);
    if i < 0 && slots[f].use == Past {
      assert f == |t.slots| - 1;
      assert forall j :: 0 <= j < f ==> slots[j].use == Live && slots[j].phone.ip != ip;
      assert slots == t.slots;
    } else if i >= 0 {
      assert t.slots[i].phone.ip == ip;
    }
  }

  predicate Matches(s: Slot, ip: string, mac: string) {
    s.use == Live && (s.phone.ip == ip || s.phone.mac == mac)
  }

  predicate Same(s: Slot, ip: string, mac: string) {
    s.use == Live && s.phone.ip == ip && s.phone.mac == mac
  }

  /**
    What a successful registration leaves: the record of this phone in one slot, no other record that matches it, and
    every other slot as it was. A phone that was there keeps its slot and its line.
   */
  lemma RegisterSlots(t: Table, ip: string, mac: string, line: int, now: int)
    requires Framed(t.slots) && Unique(t.slots) && Plain(ip) && Plain(mac)
    requires Register(t, ip, mac, line, now).1
    ensures var (t', _) := Register(t, ip, mac, line, now);
      var r, w := t'.slots, Target(t, ip, mac);
      && t'.file == Text(FileText(Phones(r))) && w < |t.slots| - 1 && |r| == |t.slots|
      && (t.slots[w].use == Live ==> Matches(t.slots[w], ip, mac))
      && r[w] == Slot(Live, Phone(mac, ip, if Same(t.slots[w], ip, mac) then t.slots[w].phone.line else line, now))
      && (forall i :: 0 <= i < |r| && i != w ==>
           r[i] == if Matches(t.slots[i], ip, mac) then t.slots[i].(use := Free) else t.slots[i])
      && (Same(t.slots[w], ip, mac) ||
          forall i :: (0 <= i < w ==> r[i].use == Live) && (0 <= i < |r| ==> !Same(t.slots[i], ip, mac)))
  {
  }

  lemma RegisterGood(t: Table, ip: string, mac: string, line: int, now: int)
    requires Proper(t.slots) && Plain(ip) && Plain(mac) && Int32(line) && Int32(now)
    ensures var (t', ok) := Register(t, ip, mac, line, now); |t'.slots| == |t.slots| && if ok then Good(t') else t' == t
  {
    hide Register, Target, Phones, FileText;
    if Register(t, ip, mac, line, now).1 {
      RegisterSlots(t, ip, mac, line, now);
    } else {
      RegisterFails(t, ip, mac, line, now);
    }
  }

  /** The live records after a successful registration, whatever the slots. */
  lemma RegisterPhones(t: Table, ip: string, mac: string, line: int, now: int, p: Phone)
    requires Framed(t.slots) && Unique(t.slots) && Plain(ip) && Plain(mac)
    requires Register(t, ip, mac, line, now).1
    ensures p in Phones(Register(t, ip, mac, line, now).0.slots) <==>
      if p.ip != ip && p.mac != mac then p in Phones(t.slots)
      else
        && p.ip == ip && p.mac == mac && p.seen == now
        && if exists q :: q in Phones(t.slots) && q.ip == ip && q.mac == mac
           then exists q :: q in Phones(t.slots) && q.ip == ip && q.mac == mac && q.line == p.line
           else p.line == line
  {
    hide Register, Target, LiveFrom, FileText;
    RegisterSlots(t, ip, mac, line, now);
    var (t', _) := Register(t, ip, mac, line, now);
    LiveIn(t'.slots, 0, p);
    forall q
      ensures q in Phones(t.slots) <==> exists j :: 0 <= j < |t.slots| && t.slots[j].use == Live && t.slots[j].phone == q
    {
      LiveIn(t.slots, 0, q);
    }
    var w := Target(t, ip, mac);
    assert t'.slots[w].use == Live;
    assert Same(t.slots[w], ip, mac) ==> t.slots[w].phone in Phones(t.slots);
  }

  // ---------- Removing and expiring ----------

  function Filter(ps: seq<Phone>, keep: Phone -> bool): seq<Phone> {
    if ps == [] then [] else (if keep(ps[0]) then [ps[0]] else []) + Filter(ps[1..], keep)
  }

  /** Freeing exactly the slots whose records are not kept filters the live records, in order. */
  lemma {:induction false} LiveFilter(slots: seq<Slot>, slots': seq<Slot>, keep: Phone -> bool, i: nat)
    requires |slots'| == |slots| && i <= |slots|
    requires forall j :: i <= j < |slots| ==> slots'[j].phone == slots[j].phone
    requires forall j :: i <= j < |slots| ==> (slots'[j].use == Live <==> slots[j].use == Live && keep(slots[j].phone))
    ensures LiveFrom(slots', i) == Filter(LiveFrom(slots, i), keep)
    decreases |slots| - i
  {
    if i < |slots| {
      LiveFilter(slots, slots', keep, i + 1);
      var rest := LiveFrom(slots, i + 1);
      assert ([slots[i].phone] + rest)[1..] == rest && [] + rest == rest;
    }
  }

  /** Removing an address removes its record and no other; an address that is not there changes nothing. */
  lemma RemovePhones(t: Table, ip: string)
    requires Proper(t.slots)
    ensures Remove(t, ip) == t || Good(Remove(t, ip))
    ensures Phones(Remove(t, ip).slots) == Filter(Phones(t.slots), (p: Phone) => p.ip != ip)
    ensures (forall p :: p in Phones(t.slots) ==> p.ip != ip) ==> Remove(t, ip) == t
  {
    hide LiveFrom, FileText, Filter;
    var i := FindIP(t.slots, ip, 0);
    var slots := if i < 0 then t.slots else t.slots[i := t.slots[i].(use := Free)];
    LiveFilter(t.slots, slots, (p: Phone) => p.ip != ip, 0);
    if i >= 0 {
      LiveIn(t.slots, 0, t.slots[i].phone);
    }
  }

  /** Expiring removes exactly the records that were last seen too long ago and keeps the rest in order. */
  lemma ExpirePhones(t: Table, now: int, minutes: int)
    requires Proper(t.slots)
    ensures Expire(t, now, minutes) == t || Good(Expire(t, now, minutes))
    ensures Phones(Expire(t, now, minutes).slots) == Filter(Phones(t.slots), (p: Phone) => now - p.seen <= minutes * 60)
    ensures (forall p :: p in Phones(t.slots) ==> now - p.seen <= minutes * 60) ==> Expire(t, now, minutes) == t
  {
    hide LiveFrom, FileText, Filter;
    var slots := Expired(t.slots, now, minutes);
    LiveFilter(t.slots, slots, (p: Phone) => now - p.seen <= minutes * 60, 0);
    if forall p :: p in Phones(t.slots) ==> now - p.seen <= minutes * 60 {
      forall i | 0 <= i < |slots|
        ensures slots[i] == t.slots[i]
      {
        LiveIn(t.slots, 0, t.slots[i].phone);
      }
    }
  }

  lemma {:induction false} FilterIn(ps: seq<Phone>, keep: Phone -> bool, p: Phone)
    ensures p in Filter(ps, keep) <==> p in ps && keep(p)
  {
    if ps != [] {
      FilterIn(ps[1..], keep, p);
      assert ps == [ps[0]] + ps[1..];
    }
  }

  /** A record stays exactly if it was seen in the last `minutes` minutes of 60 seconds. */
  lemma ExpireKeeps(t: Table, now: int, minutes: int, p: Phone)
    requires Proper(t.slots)
    ensures p in Phones(Expire(t, now, minutes).slots) <==> p in Phones(t.slots) && now - p.seen <= minutes * 60
    ensures Proper(Expire(t, now, minutes).slots)
  {
    hide Expire, Phones, Filter, Framed, Unique, LiveWritable;
    ExpirePhones(t, now, minutes);
    FilterIn(Phones(t.slots), (p: Phone) => now - p.seen <= minutes * 60, p);
  }

  /** One expiry after the other. */
  function ExpireAll(t: Table, times: seq<int>, minutes: int): Table
    decreases |times|
  {
    if times == [] then t else ExpireAll(Expire(t, times[0], minutes), times[1..], minutes)
  }

  lemma {:induction false} ExpireAllKeeps(t: Table, times: seq<int>, minutes: int, p: Phone)
    requires Proper(t.slots)
    ensures p in Phones(ExpireAll(t, times, minutes).slots) <==>
      p in Phones(t.slots) && forall i :: 0 <= i < |times| ==> times[i] - p.seen <= minutes * 60
    ensures Proper(ExpireAll(t, times, minutes).slots)
    decreases |times|
  {
    hide Expire, Phones, Proper;
    if times != [] {
      ExpireKeeps(t, times[0], minutes, p);
      ExpireAllKeeps(Expire(t, times[0], minutes), times[1..], minutes, p);
      assert forall i :: 1 <= i < |times| ==> times[i] == times[1..][i - 1];
    }
  }

  /** Some live record has this address and this MAC. */
  predicate Registered(t: Table, ip: string, mac: string) {
    exists p :: p in Phones(t.slots) && p.ip == ip && p.mac == mac
  }

  /**
    A phone that has been registered survives all expiries up to `minutes` minutes later, and is gone after one that
    comes a second later.
   */
  lemma RegisteredExpires(t: Table, ip: string, mac: string, line: int, now: int, times: seq<int>, minutes: int)
    requires Proper(t.slots) && Plain(ip) && Plain(mac) && Int32(line) && Int32(now)
    requires Register(t, ip, mac, line, now).1
    ensures var u := Register(t, ip, mac, line, now).0;
      && Registered(u, ip, mac)
      && ((forall i :: 0 <= i < |times| ==> times[i] <= now + minutes * 60) <==>
          Registered(ExpireAll(u, times, minutes), ip, mac))
      && !Registered(Expire(u, now + minutes * 60 + 1, minutes), ip, mac)
  {
    hide Register, Phones, ExpireAll, Expire, Unique, LiveWritable;
    var u := Register(t, ip, mac, line, now).0;
    RegisterGood(t, ip, mac, line, now);
    forall p
      ensures p in Phones(u.slots) && p.ip == ip && p.mac == mac ==> p.seen == now
      ensures p in Phones(ExpireAll(u, times, minutes).slots) <==>
        p in Phones(u.slots) && forall i :: 0 <= i < |times| ==> times[i] - p.seen <= minutes * 60
      ensures p in Phones(Expire(u, now + minutes * 60 + 1, minutes).slots) <==>
        p in Phones(u.slots) && now + minutes * 60 + 1 - p.seen <= minutes * 60
    {
      RegisterPhones(t, ip, mac, line, now, p);
      ExpireAllKeeps(u, times, minutes, p);
      ExpireKeeps(u, now + minutes * 60 + 1, minutes, p);
    }
    RegisteredNow(t, ip, mac, line, now);
  }

  lemma RegisteredNow(t: Table, ip: string, mac: string, line: int, now: int)
    requires Proper(t.slots) && Plain(ip) && Plain(mac) && Register(t, ip, mac, line, now).1
    ensures Registered(Register(t, ip, mac, line, now).0, ip, mac)
  {
    hide Register, LiveFrom, FileText, Target;
    var u := Register(t, ip, mac, line, now).0;
    RegisterSlots(t, ip, mac, line, now);
    var w := Target(t, ip, mac);
    LiveIn(u.slots, 0, u.slots[w].phone);
    assert u.slots[w].phone in Phones(u.slots);
  }

  // ---------- Restarting ----------

  predicate AllFree(slots: seq<Slot>) {
    Framed(slots) && forall i :: 0 <= i < |slots| ==> slots[i].use != Live
  }

  /** The slots from the first one on hold these records; the others are as they were. */
  function Packed(blank: seq<Slot>, ps: seq<Phone>): (r: seq<Slot>)
    ensures |r| == |blank|
  {
    seq(|blank|, i requires 0 <= i < |blank| => if i < |ps| then Slot(Live, ps[i]) else blank[i])
  }

  lemma {:induction false} PackedLive(blank: seq<Slot>, ps: seq<Phone>, i: nat)
    requires AllFree(blank) && |ps| < |blank| && i <= |blank|
    ensures LiveFrom(Packed(blank, ps), i) == if i <= |ps| then ps[i..] else []
    decreases |blank| - i
  {
    if i < |blank| {
      PackedLive(blank, ps, i + 1);
    }
  }

  /** The first member whose key matches, or none. */
  predicate FirstMatch(members: seq<Member>, key: string, i: int) {
    && -1 <= i < |members| && (i >= 0 ==> SameFolded(members[i].key, key))
    && forall j :: 0 <= j < (if i < 0 then |members| else i) ==> !SameFolded(members[j].key, key)
  }

  /** All of the string, or as many of its first bytes as there is room for. */
  predicate FirstBytes(part: string, s: string, room: nat) {
    part <= s && |part| <= room && (|part| < |s| ==> |part| == room)
  }

  /** A record is read from the first members with matching names; a field whose member is missing stays as it was. */
  lemma FieldsRead(members: seq<Member>, was: Phone, mac: int, ip: int, line: int, seen: int)
    requires FirstMatch(members, "MAC", mac) && FirstMatch(members, "ip_addr", ip)
    requires FirstMatch(members, "line_number", line) && FirstMatch(members, "last_seen", seen)
    requires mac >= 0 ==> members[mac].value.String?
    requires ip >= 0 ==> members[ip].value.String?
    requires line >= 0 ==> members[line].value.Number?
    requires seen >= 0 ==> members[seen].value.Number?
    ensures var p := ReadPhone(Object(members), was);
      && (if mac < 0 then p.mac == was.mac else FirstBytes(p.mac, members[mac].value.text, 20))
      && (if ip < 0 then p.ip == was.ip else FirstBytes(p.ip, members[ip].value.text, 20))
      && p.line == (if line < 0 then was.line else members[line].value.mantissa)
      && p.seen == (if seen < 0 then was.seen else members[seen].value.mantissa)
  {
    hide SameFolded;
    MatchFound(members, "MAC", mac);
    MatchFound(members, "ip_addr", ip);
    MatchFound(members, "line_number", line);
    MatchFound(members, "last_seen", seen);
  }

  lemma MatchFound(members: seq<Member>, key: string, i: int)
    requires FirstMatch(members, key, i)
    ensures Lookup(Object(members), key) == if i < 0 then None else Some(members[i].value)
  {
    hide SameFolded;
    var r := Find(members, key);
    assert r == i;
  }

  lemma LookupFields(p: Phone)
    ensures var v := PhoneJson(p);
      && Lookup(v, "MAC") == Some(String(p.mac)) && Lookup(v, "ip_addr") == Some(String(p.ip))
      && Lookup(v, "line_number") == Some(Number(p.line, 0)) && Lookup(v, "last_seen") == Some(Number(p.seen, 0))
  {
    var members := PhoneJson(p).members;
    assert SameFolded(members[0].key, "MAC");
    assert !SameFolded(members[0].key, "ip_addr") && SameFolded(members[1].key, "ip_addr");
    assert !SameFolded(members[0].key, "line_number") && !SameFolded(members[1].key, "line_number");
    assert SameFolded(members[2].key, "line_number");
    assert !SameFolded(members[0].key, "last_seen") && !SameFolded(members[1].key, "last_seen");
    assert members[2].key[1] != "last_seen"[1];
    assert SameFolded(members[3].key, "last_seen");
  }

  /** A record is read back as it was; the key `mac` is found under the name `MAC`. */
  lemma ReadBack(p: Phone, was: Phone)
    requires Writable(p)
    ensures ReadPhone(PhoneJson(p), was) == p
  {
    LookupFields(p);
    hide Lookup;
  }

  /** What a phone file says, whatever lies behind it in memory. */
  lemma FileSays(ps: seq<Phone>, junk: string)
    requires AllWritable(ps)
    ensures var r := Parser.ParseText(FileText(ps) + junk, false);
      r.Ok? && Lookup(r.value, "phones") == Some(Array(PhoneJsons(ps)))
    ensures KidValues(Array(PhoneJsons(ps))) == PhoneJsons(ps)
  {
    FileParses(ps, junk);
    var v := Object([Member("phones", Array(PhoneJsons(ps)))]);
    assert SameFolded(Members(v)[0].key, "phones");
    hide FileText, Parser.ParseText, PhoneJsons;
  }

  lemma AllReadBack(ps: seq<Phone>)
    requires AllWritable(ps)
    ensures forall i, was: Phone :: 0 <= i < |ps| ==> ReadPhone(PhoneJsons(ps)[i], was) == ps[i]
  {
    forall i, was: Phone | 0 <= i < |ps|
      ensures ReadPhone(PhoneJsons(ps)[i], was) == ps[i]
    {
      ReadBack(ps[i], was);
    }
  }

  lemma RecordedText(ps: seq<Phone>)
    requires AllWritable(ps)
    ensures Recorded(Text(FileText(ps))) == ps
  {
    FileSays(ps, "");
    AllReadBack(ps);
    hide ReadPhone, PhoneJson, FileText, Lookup, Parser.ParseText;
    assert FileText(ps) + "" == FileText(ps);
    assert Listed(Parser.ParseText(FileText(ps), false).value) == ps;
  }

  /** Reading a phone file restores its records in order, as many as there is room for. */
  lemma RestartReads(blank: seq<Slot>, ps: seq<Phone>, junk: string)
    requires AllFree(blank) && AllWritable(ps)
    ensures Restart(blank, Text(FileText(ps)), junk) == Table(Packed(blank, First(ps, |blank| - 1)), Text(FileText(ps)))
  {
    FileSays(ps, junk);
    AllReadBack(ps);
    hide ReadPhone, PhoneJson, FileText, Lookup, Parser.ParseText;
    assert Load(blank, Parser.ParseText(FileText(ps) + junk, false).value) == Packed(blank, First(ps, |blank| - 1));
  }

  /** A restart finds the records of the file in the first slots; the file is as it was. */
  lemma RestartFirst(file: File, blank: seq<Slot>, junk: string)
    requires OwnFile(file) && AllFree(blank)
    ensures var t := Restart(blank, file, junk);
      && t == Table(Packed(blank, First(Recorded(file), |blank| - 1)), file)
      && Phones(t.slots) == First(Recorded(file), |blank| - 1) && |t.slots| == |blank|
  {
    hide LiveFrom, Parser.ParseText, FileText, Writable;
    var ps := First(Recorded(file), |blank| - 1);
    PackedLive(blank, ps, 0);
    if file.Text? {
      RestartReads(blank, Recorded(file), junk);
    } else {
      assert Packed(blank, []) == blank;
    }
  }

  lemma PackedProper(blank: seq<Slot>, ps: seq<Phone>)
    requires AllFree(blank) && |ps| < |blank| && AllDifferent(ps) && AllWritable(ps)
    ensures Proper(Packed(blank, ps))
  {
  }

  lemma FirstProper(ps: seq<Phone>, n: nat)
    requires AllDifferent(ps) && AllWritable(ps)
    ensures AllDifferent(First(ps, n)) && AllWritable(First(ps, n)) && |First(ps, n)| <= n
  {
  }

  /** Whatever its size, the table is sound after a restart. */
  lemma RestartSound(t: Table, blank: seq<Slot>, junk: string)
    requires Sound(t) && AllFree(blank)
    ensures Sound(Restart(blank, t.file, junk))
  {
    hide Recorded, First, LiveFrom, Restart, Packed;
    RestartFirst(t.file, blank, junk);
    FirstProper(Recorded(t.file), |blank| - 1);
    PackedProper(blank, First(Recorded(t.file), |blank| - 1));
  }

  // ---------- Sound tables and those in step with their file ----------

  /** A table that is in step with its file is sound, and the records of the file are the live ones. */
  lemma GoodSound(t: Table)
    requires Good(t)
    ensures Sound(t) && Recorded(t.file) == Phones(t.slots) && |Phones(t.slots)| < |t.slots|
  {
    hide Recorded, LiveFrom, FileText, First, Unique, LiveWritable, AllWritable, AllDifferent;
    var ps := Phones(t.slots);
    LiveAllWritable(t.slots, 0);
    LiveUnique(t.slots, 0);
    LiveCount(t.slots, 0);
    if t.file.Text? {
      RecordedText(ps);
    } else {
      NothingRecorded();
    }
    AllFirst(ps, |t.slots| - 1);
  }

  lemma AllFirst(ps: seq<Phone>, n: nat)
    requires |ps| <= n
    ensures First(ps, n) == ps
  {
  }

  lemma NothingRecorded()
    ensures Recorded(Missing) == []
  {
  }

  /** A sound table is in step with its file exactly if there is room for all records of the file. */
  lemma SoundGood(t: Table)
    requires Sound(t)
    ensures Good(t) <==> |Recorded(t.file)| < |t.slots|
  {
    hide Recorded, LiveFrom, FileText;
    if Good(t) {
      GoodSound(t);
    } else {
      NothingRecorded();
    }
    if |Recorded(t.file)| < |t.slots| {
      assert First(Recorded(t.file), |t.slots| - 1) == Recorded(t.file);
    }
  }

  /** A restart only compacts: the same records, now in the first slots, and the file is as it was. */
  lemma RestartCompacts(t: Table, blank: seq<Slot>, junk: string)
    requires Good(t) && AllFree(blank) && |Phones(t.slots)| < |blank|
    ensures Restart(blank, t.file, junk) == Table(Packed(blank, Phones(t.slots)), t.file)
    ensures Phones(Restart(blank, t.file, junk).slots) == Phones(t.slots)
  {
    hide Restart, LiveFrom, Recorded, Packed;
    GoodSound(t);
    RestartFirst(t.file, blank, junk);
    assert First(Phones(t.slots), |blank| - 1) == Phones(t.slots);
  }

  /** Exactly when a restart loses no record: there is room for all. Otherwise the first ones survive. */
  lemma RestartIff(t: Table, blank: seq<Slot>, junk: string)
    requires Good(t) && AllFree(blank)
    ensures var ps := Phones(Restart(blank, t.file, junk).slots);
      && (|Phones(t.slots)| < |blank| ==> ps == Phones(t.slots))
      && (|Phones(t.slots)| >= |blank| ==> |ps| == |blank| - 1 && ps < Phones(t.slots))
  {
    hide Restart, LiveFrom, Recorded, Packed;
    GoodSound(t);
    RestartFirst(t.file, blank, junk);
  }

  lemma {:induction false} LiveUnique(slots: seq<Slot>, i: nat)
    requires Unique(slots) && i <= |slots|
    ensures AllDifferent(LiveFrom(slots, i))
    decreases |slots| - i
  {
    if i < |slots| {
      LiveUnique(slots, i + 1);
      forall p | p in LiveFrom(slots, i + 1)
        ensures slots[i].use == Live ==> slots[i].phone.ip != p.ip && slots[i].phone.mac != p.mac
      {
        LiveIn(slots, i + 1, p);
      }
      var rest := LiveFrom(slots, i + 1);
      assert forall k :: 0 <= k < |rest| ==> rest[k] in rest;
    }
  }

  lemma {:induction false} LiveCount(slots: seq<Slot>, i: nat)
    requires i <= |slots|
    ensures |LiveFrom(slots, i)| <= |slots| - i
    ensures i < |slots| && slots[|slots| - 1].use != Live ==> |LiveFrom(slots, i)| < |slots| - i
    decreases |slots| - i
  {
    if i < |slots| {
      LiveCount(slots, i + 1);
    }
  }

  // ---------- Runs ----------

  datatype Step =
    | Add(ip: string, mac: string, line: int, now: int)
    | Drop(ip: string)
    | Age(now: int, minutes: int)
    | Reboot(blank: seq<Slot>, junk: string)

  /** The strings and numbers fit; a restart finds free slots, however many. */
  predicate Allowed(s: Step) {
    match s
    case Add(ip, mac, line, now) => Plain(ip) && Plain(mac) && Int32(line) && Int32(now)
    case Reboot(blank, _) => AllFree(blank)
    case _ => true
  }

  function Next(t: Table, s: Step): Table
    requires Framed(t.slots) && Allowed(s)
  {
    match s
    case Add(ip, mac, line, now) => Register(t, ip, mac, line, now).0
    case Drop(ip) => Remove(t, ip)
    case Age(now, minutes) => Expire(t, now, minutes)
    case Reboot(blank, junk) => Restart(blank, t.file, junk)
  }

  /** A step that does not restart leaves the table as it is or in step with its file. */
  lemma StepWrites(t: Table, s: Step)
    requires Proper(t.slots) && Allowed(s) && !s.Reboot?
    ensures Next(t, s) == t || Good(Next(t, s))
  {
    hide Register, Remove, Expire, Synced;
    match s
    case Add(ip, mac, line, now) => RegisterGood(t, ip, mac, line, now);
    case Drop(ip) => RemovePhones(t, ip);
    case Age(now, minutes) => ExpirePhones(t, now, minutes);
  }

  /** Each step keeps the table sound. */
  lemma NextSound(t: Table, s: Step)
    requires Sound(t) && Allowed(s)
    ensures Sound(Next(t, s))
  {
    hide Register, Remove, Expire, Restart, OwnFile, First, LiveFrom, Recorded, Synced;
    if s.Reboot? {
      RestartSound(t, s.blank, s.junk);
    } else {
      StepWrites(t, s);
      if Next(t, s) != t {
        GoodSound(Next(t, s));
      }
    }
  }

  /** There is room for the live records in the table that a restart finds. */
  predicate Room(t: Table, s: Step) {
    s.Reboot? ==> |Phones(t.slots)| < |s.blank|
  }

  /** A table stays in step with its file exactly if every restart has room for the live records. */
  lemma NextGood(t: Table, s: Step)
    requires Good(t) && Allowed(s)
    ensures Good(Next(t, s)) <==> Room(t, s)
  {
    hide Register, Remove, Expire, Restart, OwnFile, First, LiveFrom, Recorded, Synced;
    if s.Reboot? {
      GoodSound(t);
      RestartSound(t, s.blank, s.junk);
      RestartFirst(t.file, s.blank, s.junk);
      SoundGood(Restart(s.blank, t.file, s.junk));
    } else {
      StepWrites(t, s);
    }
  }

  /** The states of a run. */
  function Run(t: Table, steps: seq<Step>): (r: seq<Table>)
    requires Sound(t) && forall i :: 0 <= i < |steps| ==> Allowed(steps[i])
    ensures |r| == |steps| + 1 && forall i :: 0 <= i <= |steps| ==> Sound(r[i])
    decreases |steps|
  {
    if steps == [] then [t]
    else
      NextSound(t, steps[0]);
      [t] + Run(Next(t, steps[0]), steps[1..])
  }

  /**
    In every state of every run, with restarts into tables of any size, the live records are pairwise different in
    address and MAC and are the first ones of the file, as many as there is room for; and reading the file into a
    table of any size gives its first records in order, whatever lies behind it in memory.
   */
  lemma RunSafe(t: Table, steps: seq<Step>, i: nat, blank: seq<Slot>, junk: string)
    requires Sound(t) && forall i :: 0 <= i < |steps| ==> Allowed(steps[i])
    requires i <= |steps| && AllFree(blank)
    ensures var u := Run(t, steps)[i];
      && AllDifferent(Phones(u.slots)) && |Phones(u.slots)| < |u.slots|
      && Phones(u.slots) == First(Recorded(u.file), |u.slots| - 1)
      && Phones(Restart(blank, u.file, junk).slots) == First(Recorded(u.file), |blank| - 1)
  {
    hide Restart, Packed, LiveFrom, Recorded, Run;
    var u := Run(t, steps)[i];
    LiveUnique(u.slots, 0);
    LiveCount(u.slots, 0);
    RestartFirst(u.file, blank, junk);
  }

  /** As long as every restart has room, the file holds exactly the live records, in slot order. */
  lemma {:induction false} RunInStep(t: Table, steps: seq<Step>, i: nat)
    requires Good(t) && Sound(t) && (forall i :: 0 <= i < |steps| ==> Allowed(steps[i])) && i <= |steps|
    requires forall j :: 0 <= j < i ==> Room(Run(t, steps)[j], steps[j])
    ensures var u := Run(t, steps)[i]; Good(u) && Recorded(u.file) == Phones(u.slots)
    decreases |steps|
  {
    hide Good, OwnFile, First, Next, Phones, Recorded, Room;
    if i == 0 {
      GoodSound(t);
    } else {
      NextSound(t, steps[0]);
      NextGood(t, steps[0]);
      var u, rest := Next(t, steps[0]), steps[1..];
      assert Run(t, steps) == [t] + Run(u, rest);
      assert Room(Run(t, steps)[0], steps[0]);
      forall j | 0 <= j < i - 1
        ensures Room(Run(u, rest)[j], rest[j])
      {
        assert Room(Run(t, steps)[j + 1], steps[j + 1]);
      }
      RunInStep(u, rest, i - 1);
    }
  }
}
