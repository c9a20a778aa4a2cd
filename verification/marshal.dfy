/** The differential update encoder.

    Given the current and the last-synced snapshot of a simulation-manager
    record, the daemon writes `{`, then one `"name":"escaped value"` entry for
    each tracked field whose two values differ (in the fixed field order,
    separated by commas), then `}`.  The text is a plain character sequence:
    the escaping produces `\'`, which JSON does not know, so it is not modelled
    as JSON.

    `Marshal` is the specification as a function; `SmRecordMarshal` is the
    encoder as the daemon runs it, nine calls of `InnerMarshal` that append to
    a shared buffer and update a shared comma flag, proved to produce
    `Marshal`. */
module Marshal {
  import opened Escaping
  import opened Records

  // ---------------------------------------------------------------------
  // Specification
  // ---------------------------------------------------------------------

  /** One entry of an update: the quoted key, a colon, the quoted escaped
      value.  The value is escaped by the per-character map, which
      `EscapeIsCharMap` shows equal to the daemon's five passes. */
  function Entry(name: string, value: string): string {
    "\"" + name + "\":\"" + EscapeByChar(value) + "\""
  }

  /** The fields of `fs` whose values differ between `cur` and `prev`, in the
      order of `fs`. */
  function Changed(cur: SmRecord, prev: SmRecord, fs: seq<Field>): seq<Field> {
    if fs == [] then []
    else (if Get(cur, fs[0]) != Get(prev, fs[0]) then [fs[0]] else []) + Changed(cur, prev, fs[1..])
  }

  /** The entries written for the fields `fs`, with the values of `cur`. */
  function Entries(cur: SmRecord, fs: seq<Field>): (es: seq<string>)
    ensures |es| == |fs|
  {
    seq(|fs|, i requires 0 <= i < |fs| => Entry(Name(fs[i]), Get(cur, fs[i])))
  }

  /** The entries separated by single commas. */
  function Join(es: seq<string>): string {
    if |es| == 0 then ""
    else if |es| == 1 then es[0]
    else es[0] + "," + Join(es[1..])
  }

  /** The update the daemon sends for `cur` against the last-synced `prev`. */
  function Marshal(cur: SmRecord, prev: SmRecord): (r: string)
    ensures |r| >= 2 && r[0] == '{' && r[|r| - 1] == '}'
  {
    "{" + Join(Entries(cur, Changed(cur, prev, FieldOrder))) + "}"
  }

  /** Number of occurrences of `c` in `s`. */
  function Count(s: string, c: char): nat {
    if s == [] then 0 else (if s[0] == c then 1 else 0) + Count(s[1..], c)
  }

  /** Number of occurrences of `c` in all of `es` together. */
  function CountAll(es: seq<string>, c: char): nat {
    if es == [] then 0 else Count(es[0], c) + CountAll(es[1..], c)
  }

  // ---------------------------------------------------------------------
  // Properties of the specification
  // ---------------------------------------------------------------------

  lemma {:induction false} JoinSnoc(es: seq<string>, e: string)
    ensures Join(es + [e]) == if es == [] then e else Join(es) + "," + e
  {
    if |es| == 1 {
      assert es + [e] == [es[0], e];
      assert [es[0], e][1..] == [e];
    } else if |es| > 1 {
      assert (es + [e])[1..] == es[1..] + [e];
      JoinSnoc(es[1..], e);
    }
  }

  /** A field is among the changed fields of `fs` exactly when it is in `fs`
      and its two values differ. */
  lemma {:induction false} ChangedMembers(cur: SmRecord, prev: SmRecord, fs: seq<Field>)
    ensures forall f :: f in Changed(cur, prev, fs) <==> f in fs && Get(cur, f) != Get(prev, f)
  {
    if fs != [] {
      ChangedMembers(cur, prev, fs[1..]);
      assert fs == [fs[0]] + fs[1..];
    }
  }

  /** Appending one entry to a buffer that holds `{` and the joined entries
      so far: a comma is needed exactly when there are entries already. */
  lemma JoinExtend(es: seq<string>, e: string, text: string, flag: bool)
    requires text == "{" + Join(es) && flag == (es != [])
    ensures "{" + Join(es + [e]) == text + (if flag then "," else "") + e
  {
    JoinSnoc(es, e);
    if flag {
      assert "{" + (Join(es) + "," + e) == ("{" + Join(es)) + "," + e;
    } else {
      assert "{" + e == "{" + "" + e;
    }
  }

  lemma {:induction false} ChangedSnoc(cur: SmRecord, prev: SmRecord, fs: seq<Field>, f: Field)
    ensures Changed(cur, prev, fs + [f])
         == Changed(cur, prev, fs) + (if Get(cur, f) != Get(prev, f) then [f] else [])
  {
    if fs == [] {
      assert [f][1..] == [];
    } else {
      assert (fs + [f])[1..] == fs[1..] + [f];
      ChangedSnoc(cur, prev, fs[1..], f);
    }
  }

  lemma EntriesSnoc(cur: SmRecord, fs: seq<Field>, f: Field)
    ensures Entries(cur, fs + [f]) == Entries(cur, fs) + [Entry(Name(f), Get(cur, f))]
  {
    var l, r := Entries(cur, fs + [f]), Entries(cur, fs) + [Entry(Name(f), Get(cur, f))];
    assert |l| == |r|;
    forall i | 0 <= i < |l| ensures l[i] == r[i] {
      if i < |fs| {
        assert (fs + [f])[i] == fs[i];
      }
    }
  }

  /** Fields of `fs` appear in strictly increasing position of `FieldOrder`. */
  predicate InFieldOrder(fs: seq<Field>) {
    forall i, j :: 0 <= i < j < |fs| ==> Rank(fs[i]) < Rank(fs[j])
  }

  lemma {:induction false} ChangedKeepsOrder(cur: SmRecord, prev: SmRecord, fs: seq<Field>)
    requires InFieldOrder(fs)
    ensures InFieldOrder(Changed(cur, prev, fs))
  {
    if fs != [] {
      var rest := Changed(cur, prev, fs[1..]);
      ChangedKeepsOrder(cur, prev, fs[1..]);
      ChangedMembers(cur, prev, fs[1..]);
      forall g | g in rest ensures Rank(fs[0]) < Rank(g) {
        var j :| 0 <= j < |fs[1..]| && fs[1..][j] == g;
        assert fs[j + 1] == g;
      }
    }
  }

  /** The keys of an update: a field's key is present if and only if the
      field differs, the keys follow the fixed field order, and so no key is
      written twice. */
  lemma ChangedFields(cur: SmRecord, prev: SmRecord)
    ensures var ch := Changed(cur, prev, FieldOrder);
      && (forall f :: f in ch <==> Get(cur, f) != Get(prev, f))
      && InFieldOrder(ch)
      && (forall i, j :: 0 <= i < j < |ch| ==> ch[i] != ch[j])
  {
    FieldOrderComplete();
    ChangedMembers(cur, prev, FieldOrder);
    assert InFieldOrder(FieldOrder);
    ChangedKeepsOrder(cur, prev, FieldOrder);
  }

  /** The k entries of an update are separated by exactly k - 1 commas: the
      commas in the joined text are those inside the entries plus k - 1. */
  lemma {:induction false} JoinSeparators(es: seq<string>)
    requires es != []
    ensures Count(Join(es), ',') == CountAll(es, ',') + |es| - 1
  {
    if |es| == 1 {
      assert es[1..] == [];
    } else {
      JoinSeparators(es[1..]);
      CountConcat(es[0], "," + Join(es[1..]), ',');
      CountConcat(",", Join(es[1..]), ',');
      assert es[0] + "," + Join(es[1..]) == es[0] + ("," + Join(es[1..]));
    }
  }

  lemma {:induction false} CountConcat(a: string, b: string, c: char)
    ensures Count(a + b, c) == Count(a, c) + Count(b, c)
  {
    if a == [] {
      assert a + b == b;
    } else {
      assert (a + b)[1..] == a[1..] + b;
      CountConcat(a[1..], b, c);
    }
  }

  /** An update with k changed fields holds k entries and k - 1 separating
      commas. */
  lemma MarshalSeparators(cur: SmRecord, prev: SmRecord)
    ensures var es := Entries(cur, Changed(cur, prev, FieldOrder));
      es != [] ==>
        Count(Marshal(cur, prev), ',') == CountAll(es, ',') + |es| - 1
  {
    var es := Entries(cur, Changed(cur, prev, FieldOrder));
    if es != [] {
      JoinSeparators(es);
      CountConcat("{", Join(es), ',');
      CountConcat("{" + Join(es), "}", ',');
    }
  }

  lemma {:induction false} ChangedNone(cur: SmRecord, prev: SmRecord, fs: seq<Field>)
    requires SameTracked(cur, prev)
    ensures Changed(cur, prev, fs) == []
  {
    if fs != [] {
      assert Get(cur, fs[0]) == Get(prev, fs[0]);
      ChangedNone(cur, prev, fs[1..]);
    }
  }

  /** Records that agree on the nine tracked fields produce the empty update
      `{}`; in particular a record compared with itself does. */
  lemma MarshalUnchanged(cur: SmRecord, prev: SmRecord)
    requires SameTracked(cur, prev)
    ensures Marshal(cur, prev) == "{}"
  {
    ChangedNone(cur, prev, FieldOrder);
  }

  lemma MarshalSelf(x: SmRecord)
    ensures Marshal(x, x) == "{}"
  {
    MarshalUnchanged(x, x);
  }

  lemma {:induction false} ChangedIgnoresId(cur: SmRecord, prev: SmRecord, cur': SmRecord, prev': SmRecord, fs: seq<Field>)
    requires SameTracked(cur, cur') && SameTracked(prev, prev')
    ensures Changed(cur, prev, fs) == Changed(cur', prev', fs)
  {
    if fs != [] {
      assert Get(cur, fs[0]) == Get(cur', fs[0]) && Get(prev, fs[0]) == Get(prev', fs[0]);
      ChangedIgnoresId(cur, prev, cur', prev', fs[1..]);
    }
  }

  /** The `id` field is never compared and never written: changing it in
      either snapshot leaves the update as it is. */
  lemma MarshalIgnoresId(cur: SmRecord, prev: SmRecord, id: string, id': string)
    ensures Marshal(cur.(id := id), prev.(id := id')) == Marshal(cur, prev)
  {
    var cur', prev' := cur.(id := id), prev.(id := id');
    assert SameTracked(cur, cur') && SameTracked(prev, prev');
    ChangedIgnoresId(cur, prev, cur', prev', FieldOrder);
    var ch := Changed(cur, prev, FieldOrder);
    assert Entries(cur', ch) == Entries(cur, ch);
  }

  lemma {:induction false} ChangedOnly(cur: SmRecord, prev: SmRecord, fs: seq<Field>, f: Field)
    requires Get(cur, f) != Get(prev, f)
    requires forall g :: g != f ==> Get(cur, g) == Get(prev, g)
    requires forall i, j :: 0 <= i < j < |fs| ==> fs[i] != fs[j]
    ensures Changed(cur, prev, fs) == if f in fs then [f] else []
  {
    if fs != [] {
      var rest := fs[1..];
      assert forall i, j :: 0 <= i < j < |rest| ==> rest[i] != rest[j] by {
        forall i, j | 0 <= i < j < |rest| ensures rest[i] != rest[j] {
          assert rest[i] == fs[i + 1] && rest[j] == fs[j + 1];
        }
      }
      ChangedOnly(cur, prev, rest, f);
      if fs[0] == f {
        assert f !in rest by {
          forall j | 0 <= j < |rest| ensures rest[j] != f {
            assert rest[j] == fs[j + 1];
          }
        }
      } else {
        assert Get(cur, fs[0]) == Get(prev, fs[0]);
        assert fs == [fs[0]] + rest;
        assert (f in fs) == (f in rest);
      }
    }
  }

  /** When exactly one tracked field differs, the update is that field's
      single entry between braces, with no comma. */
  lemma MarshalSingleField(cur: SmRecord, prev: SmRecord, f: Field)
    requires Get(cur, f) != Get(prev, f)
    requires forall g :: g != f ==> Get(cur, g) == Get(prev, g)
    ensures Marshal(cur, prev) == "{" + Entry(Name(f), Get(cur, f)) + "}"
  {
    FieldOrderComplete();
    ChangedOnly(cur, prev, FieldOrder, f);
    assert Entries(cur, [f]) == [Entry(Name(f), Get(cur, f))];
  }

  /** The entry for a value made of two plain strings around a newline. */
  lemma EntryNewline(name: string, a: string, b: string)
    requires forall i :: 0 <= i < |a| ==> !IsSpecial(a[i])
    requires forall i :: 0 <= i < |b| ==> !IsSpecial(b[i])
    ensures Entry(name, a + "\n" + b) == "\"" + name + "\":\"" + a + "\\n" + b + "\""
  {
    EscapeNewlineBetween(a, b);
    EscapeIsCharMap(a + "\n" + b);
  }

  lemma ErrorLogText()
    ensures "{" + ("\"" + "error_log" + "\":\"" + "bad" + "\\n" + "path" + "\"") + "}"
         == "{\"error_log\":\"bad\\npath\"}"
  {
  }

  /** A changed error log `bad<newline>path` against an empty one, all
      other tracked fields equal: the update is that single entry, with the
      newline written as a backslash followed by `n`. */
  lemma MarshalErrorLogExample(cur: SmRecord, prev: SmRecord)
    requires cur.errorLog == "bad\npath" && prev.errorLog == ""
    requires cur == prev.(errorLog := cur.errorLog, id := cur.id)
    ensures Marshal(cur, prev) == "{\"error_log\":\"bad\\npath\"}"
  {
    forall g | g != ErrorLog ensures Get(cur, g) == Get(prev, g) {
      match g
      case State => case ResourceStatus => case CmdToExecute => case CmdToExecuteCode =>
      case JobId => case Pid => case VmId => case ResId =>
    }
    MarshalSingleField(cur, prev, ErrorLog);
    assert Get(cur, ErrorLog) == "bad" + "\n" + "path";
    EntryNewline(Name(ErrorLog), "bad", "path");
    ErrorLogText();
  }

  // ---------------------------------------------------------------------
  // The encoder as the daemon runs it
  // ---------------------------------------------------------------------

  /** The buffer text and comma flag after one field has been visited:
      unchanged when the two values are equal; otherwise the text gains a
      comma (if the flag was set) and the entry, and the flag is set. */
  function Emit(text: string, flag: bool, current: string, oldValue: string, name: string): (string, bool) {
    if current == oldValue then (text, flag)
    else (text + (if flag then "," else "") + Entry(name, current), true)
  }

  /** Append the entry for one field to the buffer text when its two values
      differ, preceded by a comma when the flag says an entry has already been
      written, and set the flag.  The buffer and the flag, which the daemon
      passes by pointer, are passed in and returned. */
  method InnerMarshal(current: string, oldValue: string, name: string, comma: bool, parameters: string)
    returns (comma': bool, parameters': string)
    ensures (parameters', comma') == Emit(parameters, comma, current, oldValue, name)
  {
    comma', parameters' := comma, parameters;
    if current != oldValue {
      ghost var separator := if comma then "," else "";
      if comma' {
        parameters' := parameters' + ",";
      }
      assert parameters' == parameters + separator;
      EscapeIsCharMap(current);
      var entry := "\"" + name + "\":\"" + Escape(current) + "\"";
      assert entry == Entry(name, current);
      parameters' := parameters' + entry;
      comma' := true;
    }
  }

  /** Progress over a prefix `fs` of the field order: the text holds `{` and
      the entries of the changed fields of `fs`, and the flag says whether
      there is any. */
  ghost predicate Covers(cur: SmRecord, prev: SmRecord, fs: seq<Field>, text: string, flag: bool) {
    var es := Entries(cur, Changed(cur, prev, fs));
    text == "{" + Join(es) && flag == (es != [])
  }

  lemma CoversWrite(cur: SmRecord, prev: SmRecord, fs: seq<Field>, f: Field, text: string, flag: bool)
    requires Covers(cur, prev, fs, text, flag) && Get(cur, f) != Get(prev, f)
    ensures Covers(cur, prev, fs + [f], text + (if flag then "," else "") + Entry(Name(f), Get(cur, f)), true)
  {
    var ch := Changed(cur, prev, fs);
    var es := Entries(cur, ch);
    var e := Entry(Name(f), Get(cur, f));
    ChangedSnoc(cur, prev, fs, f);
    EntriesSnoc(cur, ch, f);
    JoinExtend(es, e, text, flag);
    assert es + [e] != [];
  }

  lemma CoversSkip(cur: SmRecord, prev: SmRecord, fs: seq<Field>, f: Field, text: string, flag: bool)
    requires Covers(cur, prev, fs, text, flag) && Get(cur, f) == Get(prev, f)
    ensures Covers(cur, prev, fs + [f], text, flag)
  {
    ChangedSnoc(cur, prev, fs, f);
    assert Changed(cur, prev, fs) + [] == Changed(cur, prev, fs);
  }

  /** Visiting one more field keeps the buffer in step with the changed
      fields seen so far. */
  lemma CoversEmit(cur: SmRecord, prev: SmRecord, fs: seq<Field>, f: Field, text: string, flag: bool)
    requires Covers(cur, prev, fs, text, flag)
    ensures var next := Emit(text, flag, Get(cur, f), Get(prev, f), Name(f));
            Covers(cur, prev, fs + [f], next.0, next.1)
  {
    if Get(cur, f) != Get(prev, f) {
      CoversWrite(cur, prev, fs, f, text, flag);
    } else {
      CoversSkip(cur, prev, fs, f, text, flag);
    }
  }

  /** The buffer text and comma flag after `InnerMarshal` has run on the
      first `k` fields, starting from `{` and an unset flag. */
  ghost function Prefix(cur: SmRecord, prev: SmRecord, k: nat): (string, bool)
    requires k <= |FieldOrder|
  {
    if k == 0 then ("{", false)
    else
      var before := Prefix(cur, prev, k - 1);
      var f := FieldOrder[k - 1];
      Emit(before.0, before.1, Get(cur, f), Get(prev, f), Name(f))
  }

  lemma TakeSnoc(s: seq<Field>, k: nat)
    requires 0 < k <= |s|
    ensures s[..k] == s[..k - 1] + [s[k - 1]]
  {
  }

  /** After `k` calls the buffer holds `{` and the entries of the changed
      fields among the first `k`, and the flag says whether there is any. */
  lemma {:induction false} PrefixCovers(cur: SmRecord, prev: SmRecord, k: nat)
    requires k <= |FieldOrder|
    ensures Covers(cur, prev, FieldOrder[..k], Prefix(cur, prev, k).0, Prefix(cur, prev, k).1)
  {
    if k > 0 {
      PrefixCovers(cur, prev, k - 1);
      var before := Prefix(cur, prev, k - 1);
      var f := FieldOrder[k - 1];
      TakeSnoc(FieldOrder, k);
      CoversEmit(cur, prev, FieldOrder[..k - 1], f, before.0, before.1);
      assert Prefix(cur, prev, k) == Emit(before.0, before.1, Get(cur, f), Get(prev, f), Name(f));
    }
  }

  /** Visiting field `f` takes the buffer from its state before `f` in the
      field order to its state after `f`. */
  lemma PrefixStep(cur: SmRecord, prev: SmRecord, f: Field, before: (string, bool), after: (string, bool))
    requires before == Prefix(cur, prev, Rank(f))
    requires after == Emit(before.0, before.1, Get(cur, f), Get(prev, f), Name(f))
    ensures after == Prefix(cur, prev, Rank(f) + 1)
  {
  }

  /** After all nine fields, closing the text with `}` gives the update. */
  lemma PrefixIsMarshal(cur: SmRecord, prev: SmRecord)
    ensures Prefix(cur, prev, 9).0 + "}" == Marshal(cur, prev)
  {
    PrefixCovers(cur, prev, 9);
    assert FieldOrder[..9] == FieldOrder;
  }

  /** The update for `smRecord` against `oldSmRecord`, built as the daemon
      builds it. */
  method SmRecordMarshal(smRecord: SmRecord, oldSmRecord: SmRecord) returns (update: string)
    ensures update == Marshal(smRecord, oldSmRecord)
  {
    var parameters := "{";
    var comma := false;
    ghost var before := (parameters, comma);
    comma, parameters := InnerMarshal(smRecord.state, oldSmRecord.state, "state", comma, parameters);
    PrefixStep(smRecord, oldSmRecord, State, before, (parameters, comma));
    before := (parameters, comma);
    comma, parameters := InnerMarshal(smRecord.resourceStatus, oldSmRecord.resourceStatus, "resource_status", comma, parameters);
    PrefixStep(smRecord, oldSmRecord, ResourceStatus, before, (parameters, comma));
    before := (parameters, comma);
    comma, parameters := InnerMarshal(smRecord.cmdToExecute, oldSmRecord.cmdToExecute, "cmd_to_execute", comma, parameters);
    PrefixStep(smRecord, oldSmRecord, CmdToExecute, before, (parameters, comma));
    before := (parameters, comma);
    comma, parameters := InnerMarshal(smRecord.cmdToExecuteCode, oldSmRecord.cmdToExecuteCode, "cmd_to_execute_code", comma, parameters);
    PrefixStep(smRecord, oldSmRecord, CmdToExecuteCode, before, (parameters, comma));
    before := (parameters, comma);
    comma, parameters := InnerMarshal(smRecord.errorLog, oldSmRecord.errorLog, "error_log", comma, parameters);
    PrefixStep(smRecord, oldSmRecord, ErrorLog, before, (parameters, comma));
    before := (parameters, comma);
    comma, parameters := InnerMarshal(smRecord.jobId, oldSmRecord.jobId, "job_id", comma, parameters);
    PrefixStep(smRecord, oldSmRecord, JobId, before, (parameters, comma));
    before := (parameters, comma);
    comma, parameters := InnerMarshal(smRecord.pid, oldSmRecord.pid, "pid", comma, parameters);
    PrefixStep(smRecord, oldSmRecord, Pid, before, (parameters, comma));
    before := (parameters, comma);
    comma, parameters := InnerMarshal(smRecord.vmId, oldSmRecord.vmId, "vm_id", comma, parameters);
    PrefixStep(smRecord, oldSmRecord, VmId, before, (parameters, comma));
    before := (parameters, comma);
    comma, parameters := InnerMarshal(smRecord.resId, oldSmRecord.resId, "res_id", comma, parameters);
    PrefixStep(smRecord, oldSmRecord, ResId, before, (parameters, comma));
    PrefixIsMarshal(smRecord, oldSmRecord);
    parameters := parameters + "}";
    update := parameters;
  }
}
