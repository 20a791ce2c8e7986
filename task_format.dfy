/**
 * The comma-separated line `toString` produces for each class
 * (`id,TYPE,name,status,description,start,minutes` and, for a subtask,
 * `,epicId`). The date formatter is a parameter: `format` turns a start
 * minute into text.
 */
module TaskFormat {
  import opened Wrappers
  import opened Seqs
  import opened TaskStatuses
  import opened Tasks

  function DigitChar(d: nat): (c: char)
    requires d < 10
  {
    ('0' as int + d) as char
  }

  function DigitValue(c: char): (d: nat)
  {
    if '0' <= c <= '9' then (c - '0') as nat else 0
  }

  /** Decimal digits of a natural number, most significant first, no leading zeros. */
  function NatToString(n: nat): (s: string)
    decreases n
  {
    if n < 10 then [DigitChar(n)] else NatToString(n / 10) + [DigitChar(n % 10)]
  }

  /** `%d`: an optional minus sign, then the digits of the magnitude. */
  function IntToString(i: int): (s: string)
  {
    if i < 0 then "-" + NatToString(-i) else NatToString(i)
  }

  function ParseNat(s: string): (n: nat)
  {
    if s == [] then 0 else ParseNat(s[..|s| - 1]) * 10 + DigitValue(s[|s| - 1])
  }

  function ParseInt(s: string): (i: int)
  {
    if |s| > 0 && s[0] == '-' then var n: int := ParseNat(s[1..]); -n else ParseNat(s)
  }

  ghost predicate IsDigit(c: char)
  {
    '0' <= c <= '9'
  }

  /** Reading one more digit multiplies by ten and adds it. */
  lemma ParseNatSnoc(s: string, c: char)
    ensures ParseNat(s + [c]) == ParseNat(s) * 10 + DigitValue(c)
  {
    assert (s + [c])[..|s|] == s;
  }

  /** The digits of `n` read back as `n`. */
  lemma {:induction false} NatRoundTrip(n: nat)
    ensures ParseNat(NatToString(n)) == n
    decreases n
  {
    if n < 10 {
      assert NatToString(n) == [] + [DigitChar(n)];
      ParseNatSnoc([], DigitChar(n));
    } else {
      NatRoundTrip(n / 10);
      ParseNatSnoc(NatToString(n / 10), DigitChar(n % 10));
    }
  }

  /** The digits of `n` are a non-empty string of decimal digits. */
  lemma {:induction false} NatDigits(n: nat)
    ensures NatToString(n) != []
    ensures forall k :: 0 <= k < |NatToString(n)| ==> IsDigit(NatToString(n)[k])
    decreases n
  {
    if n >= 10 {
      NatDigits(n / 10);
      var s := NatToString(n);
      assert forall k :: 0 <= k < |s| - 1 ==> s[k] == NatToString(n / 10)[k];
    }
  }

  /** `%d` reads back to the same integer. */
  lemma IntRoundTrip(i: int)
    ensures ParseInt(IntToString(i)) == i
  {
    var s := IntToString(i);
    if i < 0 {
      NatRoundTrip(-i);
      assert s[0] == '-';
      assert s[1..] == NatToString(-i);
    } else {
      NatRoundTrip(i);
      NatDigits(i);
      assert IsDigit(s[0]);
    }
  }

  /** `%d` never writes a comma. */
  lemma IntCommaFree(i: int)
    ensures CommaFree(IntToString(i))
  {
    var s := IntToString(i);
    if i < 0 {
      NatDigits(-i);
      assert forall k :: 1 <= k < |s| ==> s[k] == NatToString(-i)[k - 1];
    } else {
      NatDigits(i);
    }
  }

  /** The text holds no field separator. */
  ghost predicate CommaFree(s: string)
  {
    ',' !in s
  }

  function KindName(k: Kind): (s: string)
  {
    match k
    case TASK => "TASK"
    case SUBTASK => "SUBTASK"
    case EPIC => "EPIC"
  }

  function StatusName(st: Status): (s: string)
  {
    match st
    case NEW => "NEW"
    case IN_PROGRESS => "IN_PROGRESS"
    case DONE => "DONE"
  }

  /** The fields joined by the separator. */
  function Join(fields: seq<string>, sep: char): (s: string)
    requires fields != []
  {
    if |fields| == 1 then fields[0] else fields[0] + [sep] + Join(fields[1..], sep)
  }

  /** The text cut at every separator (`String.split` keeping empty fields). */
  function Split(s: string, sep: char): (fields: seq<string>)
    decreases |s|
  {
    if sep !in s then [s]
    else
      var k := IndexOf(s, sep);
      [s[..k]] + Split(s[k + 1..], sep)
  }

  /** Splitting a join gives the fields back when none of them holds the separator. */
  lemma {:induction false} SplitJoin(fields: seq<string>, sep: char)
    requires fields != []
    requires forall k :: 0 <= k < |fields| ==> sep !in fields[k]
    ensures Split(Join(fields, sep), sep) == fields
  {
    if |fields| > 1 {
      var s := Join(fields, sep);
      var f := fields[0];
      assert sep !in f;
      assert s[|f|] == sep;
      var k := IndexOf(s, sep);
      assert s[..|f|] == f;
      assert k == |f|;
      assert s[k + 1..] == Join(fields[1..], sep);
      SplitJoin(fields[1..], sep);
    }
  }

  /** The fields of the line, in order. */
  function Fields(t: Item, format: int -> string): (fields: seq<string>)
  {
    [IntToString(t.id), KindName(KindOf(t)), t.name, StatusName(t.status), t.description,
     if t.startTime.Some? then format(t.startTime.value) else "",
     IntToString(t.duration)]
    + (if t.Subtask? then [IntToString(t.epicId)] else [])
  }

  /** `toString` of a task, subtask or epic. */
  function ToString(t: Item, format: int -> string): (s: string)
  {
    Join(Fields(t, format), ',')
  }

  /**
   * With a comma-free name, description and formatted start, the line splits
   * back into seven fields (eight for a subtask): the id, the type tag,
   * name, status and description, the formatted start or "" when there is
   * none, the minutes, and a subtask's epic id last.
   */
  lemma ToStringFields(t: Item, format: int -> string)
    requires CommaFree(t.name) && CommaFree(t.description)
    requires t.startTime.Some? ==> CommaFree(format(t.startTime.value))
    ensures var f := Split(ToString(t, format), ',');
      |f| == (if t.Subtask? then 8 else 7) &&
      ParseInt(f[0]) == t.id && f[1] == KindName(KindOf(t)) &&
      f[2] == t.name && f[3] == StatusName(t.status) && f[4] == t.description &&
      (t.startTime.None? ==> f[5] == "") &&
      (t.startTime.Some? ==> f[5] == format(t.startTime.value)) &&
      ParseInt(f[6]) == t.duration &&
      (t.Subtask? ==> ParseInt(f[7]) == t.epicId)
  {
    FieldsCommaFree(t, format);
    SplitJoin(Fields(t, format), ',');
    FieldsRead(t, format);
  }

  /** What each field of the line holds. */
  lemma FieldsRead(t: Item, format: int -> string)
    ensures var f := Fields(t, format);
      |f| == (if t.Subtask? then 8 else 7) &&
      ParseInt(f[0]) == t.id && f[1] == KindName(KindOf(t)) &&
      f[2] == t.name && f[3] == StatusName(t.status) && f[4] == t.description &&
      (t.startTime.None? ==> f[5] == "") &&
      (t.startTime.Some? ==> f[5] == format(t.startTime.value)) &&
      ParseInt(f[6]) == t.duration &&
      (t.Subtask? ==> ParseInt(f[7]) == t.epicId)
  {
    IntRoundTrip(t.id);
    IntRoundTrip(t.duration);
    if t.Subtask? {
      IntRoundTrip(t.epicId);
    }
  }

  lemma FieldsCommaFree(t: Item, format: int -> string)
    requires CommaFree(t.name) && CommaFree(t.description)
    requires t.startTime.Some? ==> CommaFree(format(t.startTime.value))
    ensures forall k :: 0 <= k < |Fields(t, format)| ==> CommaFree(Fields(t, format)[k])
  {
    IntCommaFree(t.id);
    IntCommaFree(t.duration);
    if t.Subtask? {
      IntCommaFree(t.epicId);
    }
    assert CommaFree(KindName(KindOf(t))) && CommaFree(StatusName(t.status));
  }
}
