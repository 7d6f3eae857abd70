/** From the decoded header list to a request head (src/http/v2.c:2822-3012;
    sections 8.1.2.1 and 8.1.2.3 of RFC 7540). */
module RequestHead {
  import opened Wrappers
  import opened HpackTable
  import opened HpackLookup

  datatype Pseudo = Method | Scheme | Authority | Path

  /** What the parsers of other files accept as a method and as an authority. */
  datatype Rules = Rules(methods: set<Str>, authorities: Str -> bool)

  function Ascii(s: string): Str {
    seq(|s|, i requires 0 <= i < |s| => if s[i] < 128 as char then s[i] as int else 0)
  }

  function NameOf(p: Pseudo): Str {
    match p
    case Method => Ascii(":method")
    case Scheme => Ascii(":scheme")
    case Authority => Ascii(":authority")
    case Path => Ascii(":path")
  }

  /** A key that starts with a colon; `:status` is one of them, and refused. */
  predicate IsPseudoKey(key: Str) {
    |key| > 0 && key[0] == ':' as int
  }

  function PseudoOf(key: Str): Option<Pseudo> {
    if key == NameOf(Method) then Some(Method)
    else if key == NameOf(Scheme) then Some(Scheme)
    else if key == NameOf(Authority) then Some(Authority)
    else if key == NameOf(Path) then Some(Path)
    else None
  }

  lemma PseudoNames(p: Pseudo)
    ensures PseudoOf(NameOf(p)) == Some(p) && IsPseudoKey(NameOf(p))
  {
    assert |NameOf(Method)| == 7 && |NameOf(Scheme)| == 7 && |NameOf(Authority)| == 10 && |NameOf(Path)| == 5;
    assert NameOf(Method)[1] == 'm' as int && NameOf(Scheme)[1] == 's' as int;
    assert NameOf(p)[0] == ':' as int;
  }

  lemma PseudoIsNamed(key: Str)
    ensures PseudoOf(key).Some? ==> key == NameOf(PseudoOf(key).value) && IsPseudoKey(key)
  {
    if PseudoOf(key).Some? {
      PseudoNames(PseudoOf(key).value);
    }
  }

  // ----- the shape, without a loop

  /** How many fields stand before the first regular one. */
  function Leading(fields: seq<Field>): (k: nat)
    ensures k <= |fields|
    ensures forall i | 0 <= i < k :: IsPseudoKey(fields[i].key)
    ensures k < |fields| ==> !IsPseudoKey(fields[k].key)
  {
    if fields == [] || !IsPseudoKey(fields[0].key) then 0
    else
      var k := Leading(fields[1..]);
      assert forall i | 1 <= i < k + 1 :: fields[i] == fields[1..][i - 1];
      k + 1
  }

  predicate GoodPseudo(rules: Rules, f: Field) {
    match PseudoOf(f.key)
    case None => false
    case Some(Method) => f.value in rules.methods
    case Some(Authority) => rules.authorities(f.value)
    case Some(_) => true
  }

  ghost predicate Has(fields: seq<Field>, k: nat, p: Pseudo)
    requires k <= |fields|
  {
    exists i | 0 <= i < k :: PseudoOf(fields[i].key) == Some(p)
  }

  ghost predicate Distinct(fields: seq<Field>, k: nat)
    requires k <= |fields|
  {
    forall i, j | 0 <= i < j < k :: fields[i].key != fields[j].key
  }

  /** A prefix of distinct, known and acceptable pseudo fields with method,
      scheme and path among them, and regular fields behind it. */
  ghost predicate IsRequestHead(rules: Rules, fields: seq<Field>) {
    var k := Leading(fields);
    && (forall i | 0 <= i < k :: GoodPseudo(rules, fields[i]))
    && Distinct(fields, k)
    && Has(fields, k, Method) && Has(fields, k, Scheme) && Has(fields, k, Path)
    && (forall i | k <= i < |fields| :: !IsPseudoKey(fields[i].key))
  }

  datatype Head = Head(values: map<Pseudo, Str>, fields: seq<Field>)

  /** The values are those of the pseudo fields, one each. */
  ghost predicate Collects(values: map<Pseudo, Str>, fields: seq<Field>, k: nat)
    requires k <= |fields|
  {
    && (forall p :: p in values <==> Has(fields, k, p))
    && (forall i | 0 <= i < k ::
          PseudoOf(fields[i].key).Some? && PseudoOf(fields[i].key).value in values
          && values[PseudoOf(fields[i].key).value] == fields[i].value)
  }

  ghost predicate IsHeadOf(h: Head, fields: seq<Field>) {
    Collects(h.values, fields, Leading(fields)) && h.fields == fields[Leading(fields)..]
  }

  /** The four names, letter by letter. */
  lemma PseudoBytes()
    ensures NameOf(Method) == [58, 109, 101, 116, 104, 111, 100]
    ensures NameOf(Scheme) == [58, 115, 99, 104, 101, 109, 101]
    ensures NameOf(Authority) == [58, 97, 117, 116, 104, 111, 114, 105, 116, 121]
    ensures NameOf(Path) == [58, 112, 97, 116, 104]
  {
    assert ":method"[1] == 'm' && ":method"[2] == 'e' && ":method"[3] == 't' && ":method"[4] == 'h';
    assert ":path"[1] == 'p';
  }

  ghost predicate HasKey(fields: seq<Field>, k: nat, key: Str)
    requires k <= |fields|
  {
    exists i | 0 <= i < k :: fields[i].key == key
  }

  /** A key that starts with a colon. */
  predicate Colon(f: Field) {
    |f.key| > 0 && f.key[0] == 58
  }

  /** Fields `k` on are regular, those before it are the pseudo fields of a request. */
  ghost predicate SplitsAt(rules: Rules, fields: seq<Field>, k: nat)
    requires k <= |fields|
  {
    && (forall i | 0 <= i < k ::
          && fields[i].key in {Ascii(":method"), Ascii(":scheme"), Ascii(":authority"), Ascii(":path")}
          && (fields[i].key == Ascii(":method") ==> fields[i].value in rules.methods)
          && (fields[i].key == Ascii(":authority") ==> rules.authorities(fields[i].value)))
    && (forall i, j | 0 <= i < j < k :: fields[i].key != fields[j].key)
    && HasKey(fields, k, Ascii(":method")) && HasKey(fields, k, Ascii(":scheme")) && HasKey(fields, k, Ascii(":path"))
    && (forall i | k <= i < |fields| :: !Colon(fields[i]))
  }

  /** Sections 8.1.2.1 and 8.1.2.3 of RFC 7540: a request head is a list that
      splits into pseudo fields, each at most once, with a known method, a valid
      authority if there is one, and method, scheme and path present, and
      regular fields behind them. */
  lemma HeadIff(rules: Rules, fields: seq<Field>)
    ensures IsRequestHead(rules, fields) <==> exists k: nat | k <= |fields| :: SplitsAt(rules, fields, k)
  {
    hide Ascii, IsRequestHead;
    if IsRequestHead(rules, fields) {
      HeadSplits(rules, fields);
    }
    if k: nat :| k <= |fields| && SplitsAt(rules, fields, k) {
      SplitIsHead(rules, fields, k);
    }
  }

  lemma KeyIsPseudo(key: Str, p: Pseudo)
    ensures PseudoOf(key) == Some(p) <==> key == NameOf(p)
  {
    hide NameOf;
    PseudoNames(p);
    PseudoIsNamed(key);
  }

  lemma HasPseudo(fields: seq<Field>, k: nat, p: Pseudo)
    requires k <= |fields|
    ensures Has(fields, k, p) <==> HasKey(fields, k, NameOf(p))
  {
    hide NameOf, PseudoOf;
    forall i | 0 <= i < k
      ensures PseudoOf(fields[i].key) == Some(p) <==> fields[i].key == NameOf(p)
    {
      KeyIsPseudo(fields[i].key, p);
    }
  }

  lemma HeadSplits(rules: Rules, fields: seq<Field>)
    requires IsRequestHead(rules, fields)
    ensures SplitsAt(rules, fields, Leading(fields))
  {
    hide Ascii;
    var k := Leading(fields);
    HasPseudo(fields, k, Method);
    HasPseudo(fields, k, Scheme);
    HasPseudo(fields, k, Path);
    hide PseudoOf;
    forall i | 0 <= i < k
      ensures fields[i].key in {Ascii(":method"), Ascii(":scheme"), Ascii(":authority"), Ascii(":path")}
      ensures fields[i].key == Ascii(":method") ==> fields[i].value in rules.methods
      ensures fields[i].key == Ascii(":authority") ==> rules.authorities(fields[i].value)
    {
      PseudoFieldIff(rules, fields[i]);
    }
  }

  lemma PseudoFieldIff(rules: Rules, f: Field)
    ensures GoodPseudo(rules, f) <==>
            && f.key in {Ascii(":method"), Ascii(":scheme"), Ascii(":authority"), Ascii(":path")}
            && (f.key == Ascii(":method") ==> f.value in rules.methods)
            && (f.key == Ascii(":authority") ==> rules.authorities(f.value))
  {
    KeyIsPseudo(f.key, Method);
    KeyIsPseudo(f.key, Scheme);
    KeyIsPseudo(f.key, Authority);
    KeyIsPseudo(f.key, Path);
    hide Ascii, PseudoOf;
  }

  lemma SplitIsHead(rules: Rules, fields: seq<Field>, k: nat)
    requires k <= |fields| && SplitsAt(rules, fields, k)
    ensures IsRequestHead(rules, fields)
  {
    hide Ascii;
    forall i | 0 <= i < k
      ensures IsPseudoKey(fields[i].key) && GoodPseudo(rules, fields[i])
    {
      PseudoFieldIff(rules, fields[i]);
      PseudoIsNamed(fields[i].key);
    }
    LeadingIs(fields, k);
    HasPseudo(fields, k, Method);
    HasPseudo(fields, k, Scheme);
    HasPseudo(fields, k, Path);
  }

  lemma {:induction false} LeadingIs(fields: seq<Field>, k: nat)
    requires k <= |fields| && forall i | 0 <= i < k :: IsPseudoKey(fields[i].key)
    requires k < |fields| ==> !IsPseudoKey(fields[k].key)
    ensures Leading(fields) == k
    decreases k
  {
    if k > 0 {
      assert forall i | 0 <= i < k - 1 :: fields[1..][i] == fields[i + 1];
      LeadingIs(fields[1..], k - 1);
    }
  }

  /** The value that a name has among the first `k` fields. */
  ghost predicate ValueIs(h: Head, fields: seq<Field>, k: nat, p: Pseudo, key: Str)
    requires k <= |fields|
  {
    && (p in h.values <==> HasKey(fields, k, key))
    && (p in h.values ==> forall i | 0 <= i < k :: fields[i].key == key ==> h.values[p] == fields[i].value)
  }

  /** What is in the head of a list: under each name the value of its field,
      and the regular fields in order. */
  lemma HeadHolds(rules: Rules, fields: seq<Field>, k: nat, h: Head)
    requires k <= |fields| && SplitsAt(rules, fields, k) && IsHeadOf(h, fields)
    ensures h.fields == fields[k..]
    ensures ValueIs(h, fields, k, Method, Ascii(":method")) && ValueIs(h, fields, k, Scheme, Ascii(":scheme"))
    ensures ValueIs(h, fields, k, Authority, Ascii(":authority")) && ValueIs(h, fields, k, Path, Ascii(":path"))
  {
    hide PseudoOf, Collects, ValueIs, SplitsAt, Leading;
    SplitLeads(rules, fields, k);
    ValueHolds(h, fields, k, Method);
    ValueHolds(h, fields, k, Scheme);
    ValueHolds(h, fields, k, Authority);
    ValueHolds(h, fields, k, Path);
  }

  lemma SplitLeads(rules: Rules, fields: seq<Field>, k: nat)
    requires k <= |fields| && SplitsAt(rules, fields, k)
    ensures Leading(fields) == k
  {
    hide Ascii, PseudoOf, GoodPseudo;
    forall i | 0 <= i < k
      ensures IsPseudoKey(fields[i].key)
    {
      PseudoFieldIff(rules, fields[i]);
      GoodIsPseudo(rules, fields[i]);
    }
    LeadingIs(fields, k);
  }

  lemma GoodIsPseudo(rules: Rules, f: Field)
    ensures GoodPseudo(rules, f) ==> IsPseudoKey(f.key)
  {
    PseudoIsNamed(f.key);
  }

  lemma ValueHolds(h: Head, fields: seq<Field>, k: nat, p: Pseudo)
    requires k <= |fields| && Collects(h.values, fields, k)
    ensures ValueIs(h, fields, k, p, NameOf(p))
  {
    hide NameOf, PseudoOf;
    HasPseudo(fields, k, p);
    forall i | 0 <= i < k && fields[i].key == NameOf(p)
      ensures p in h.values && h.values[p] == fields[i].value
    {
      KeyIsPseudo(fields[i].key, p);
    }
  }

  // ----- the loop

  lemma NotAHead(rules: Rules, fields: seq<Field>, i: nat)
    requires i < |fields| && IsPseudoKey(fields[i].key)
    requires || !GoodPseudo(rules, fields[i])
             || (exists j | 0 <= j < i :: fields[j].key == fields[i].key)
             || (exists j | 0 <= j < i :: !IsPseudoKey(fields[j].key))
    ensures !IsRequestHead(rules, fields)
  {
    var k := Leading(fields);
    if i < k && GoodPseudo(rules, fields[i]) {
      if j :| 0 <= j < i && fields[j].key == fields[i].key {
        assert !Distinct(fields, k);
      }
    }
  }

  /** One pseudo field: it must be acceptable and new. */
  method TakePseudo(rules: Rules, fields: seq<Field>, i: nat, values: map<Pseudo, Str>)
    returns (r: Result<map<Pseudo, Str>>)
    requires i < |fields| && IsPseudoKey(fields[i].key)
    requires Distinct(fields, i) && Collects(values, fields, i)
    ensures r.Err? ==> !IsRequestHead(rules, fields)
    ensures r.Ok? ==> GoodPseudo(rules, fields[i]) && Distinct(fields, i + 1) && Collects(r.value, fields, i + 1)
  {
    hide NameOf;
    var f := fields[i];
    if !GoodPseudo(rules, f) {
      NotAHead(rules, fields, i);
      return Err(Malformed);
    }
    var p := PseudoOf(f.key).value;
    PseudoIsNamed(f.key);
    if p in values {
      assert Has(fields, i, p);
      var j :| 0 <= j < i && PseudoOf(fields[j].key) == Some(p);
      PseudoIsNamed(fields[j].key);
      NotAHead(rules, fields, i);
      return Err(Malformed);
    }
    NewPseudo(fields, i, values);
    r := Ok(values[p := f.value]);
  }

  lemma NewPseudo(fields: seq<Field>, i: nat, values: map<Pseudo, Str>)
    requires i < |fields| && Distinct(fields, i) && Collects(values, fields, i)
    requires PseudoOf(fields[i].key).Some? && PseudoOf(fields[i].key).value !in values
    ensures Distinct(fields, i + 1)
    ensures Collects(values[PseudoOf(fields[i].key).value := fields[i].value], fields, i + 1)
  {
    hide PseudoOf, NameOf;
    var p := PseudoOf(fields[i].key).value;
    forall q
      ensures Has(fields, i + 1, q) <==> Has(fields, i, q) || q == p
    {
      if Has(fields, i, q) {
        var j :| 0 <= j < i && PseudoOf(fields[j].key) == Some(q);
        assert PseudoOf(fields[j].key) == Some(q);
      }
      assert PseudoOf(fields[i].key) == Some(p);
    }
    assert forall j | 0 <= j < i :: fields[j].key != fields[i].key;
  }

  lemma NothingYet(fields: seq<Field>)
    ensures Collects(map[], fields, 0) && Distinct(fields, 0)
  {
    hide PseudoOf;
  }

  /** The head is parsed exactly when the list has the shape of one, and is
      then made of its parts, the regular fields in order. */
  method ParseHead(rules: Rules, fields: seq<Field>) returns (r: Result<Head>)
    ensures r.Ok? <==> IsRequestHead(rules, fields)
    ensures r.Ok? ==> IsHeadOf(r.value, fields)
  {
    hide PseudoOf, GoodPseudo, IsPseudoKey, Distinct, Has;
    var k := Leading(fields);
    NothingYet(fields);
    var values: map<Pseudo, Str> := map[];
    var regular: seq<Field> := [];
    var pseudoFinished := false;
    for i := 0 to |fields|
      invariant !pseudoFinished ==> i <= k && Collects(values, fields, i) && regular == []
      invariant !pseudoFinished ==> Distinct(fields, i) && forall j | 0 <= j < i :: GoodPseudo(rules, fields[j])
      invariant pseudoFinished ==> k < i && Collects(values, fields, k) && regular == fields[k..i]
      invariant pseudoFinished ==> Distinct(fields, k) && forall j | 0 <= j < k :: GoodPseudo(rules, fields[j])
      invariant forall j | k <= j < i :: !IsPseudoKey(fields[j].key)
    {
      var entry := fields[i];
      if IsPseudoKey(entry.key) {
        if pseudoFinished {
          NotAHead(rules, fields, i);
          return Err(Malformed);
        }
        var taken := TakePseudo(rules, fields, i, values);
        if taken.Err? {
          return Err(Malformed);
        }
        values := taken.value;
      } else {
        pseudoFinished := true;
        regular := regular + [entry];
      }
    }
    if Method !in values || Scheme !in values || Path !in values {
      return Err(Malformed);
    }
    r := Ok(Head(values, regular));
  }
}
