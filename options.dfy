/** The option resolver of `PDFPlugin._read_image`: the `pdfopt` string is
    split into `key=value` entries, each legal key overwrites the instance
    attribute of the same name with its text, and the attributes are then
    coerced to an int, an int and a bool and the rotation is validated.

    The functions here describe, entry by entry, what the instance attributes
    hold and what is raised; `PdfPlugin.ResolveOptions` in module Plugin is the
    loop that performs the updates and is proved against `Resolve`. */
module Options {
  import opened Base
  import opened Text

  /** What an instance attribute holds: `setattr` stores the option text, the
      coercions store an int or a bool, and an attribute never assigned is
      missing. */
  datatype Attr = Unset | Str(s: string) | Int(i: int) | Bool(b: bool)

  /** The three instance attributes the resolver reads and writes. */
  datatype Fields = Fields(dpi: Attr, rotate: Attr, encapsulate: Attr)

  /** The typed settings a successful resolution yields. */
  datatype Settings = Settings(dpi: int, rotate: int, encapsulate: bool)

  const DEFAULT_DPI: int := 150
  const DEFAULT_ROTATE: int := 0
  const LEGAL_ATTRIBUTES: set<string> := {"dpi", "rotate", "encapsulate"}

  /** `self.dpi = 150; self.rotate = 0`; encapsulate keeps whatever it held. */
  function Seed(f: Fields): (g: Fields)
    ensures g.dpi == Int(DEFAULT_DPI) && g.rotate == Int(DEFAULT_ROTATE)
    ensures g.encapsulate == f.encapsulate
  {
    f.(dpi := Int(DEFAULT_DPI), rotate := Int(DEFAULT_ROTATE))
  }

  /** The entries of the option: none when it is absent or empty, otherwise
      the pieces between commas, which joined with commas give the option
      back. */
  function Entries(pdfopt: Option<string>): (exprs: seq<string>)
    ensures exprs == [] <==> pdfopt.None? || pdfopt.value == ""
    ensures exprs != [] ==> Join(exprs, ',') == pdfopt.value
    ensures forall i :: 0 <= i < |exprs| ==> ',' !in exprs[i]
  {
    if pdfopt.Some? && pdfopt.value != "" then
      JoinSplit(pdfopt.value, ',');
      Split(pdfopt.value, ',')
    else []
  }

  /** `getattr(self, attr)`. */
  function Field(f: Fields, attr: string): Attr
    requires attr in LEGAL_ATTRIBUTES
  {
    if attr == "dpi" then f.dpi else if attr == "rotate" then f.rotate else f.encapsulate
  }

  /** `setattr(self, attr, value)`: the named attribute takes the text and
      the other two keep their values. */
  function SetAttr(f: Fields, attr: string, value: string): (g: Fields)
    requires attr in LEGAL_ATTRIBUTES
    ensures Field(g, attr) == Str(value)
    ensures forall other :: other in LEGAL_ATTRIBUTES && other != attr ==> Field(g, other) == Field(f, other)
  {
    if attr == "dpi" then f.(dpi := Str(value))
    else if attr == "rotate" then f.(rotate := Str(value))
    else f.(encapsulate := Str(value))
  }

  /** The text before the first '=' of an entry. */
  function KeyOf(expr: string): string {
    Split(expr, '=')[0]
  }

  /** The text between the first and second '=' of an entry. */
  function ValueOf(expr: string): string {
    var parts := Split(expr, '=');
    if |parts| >= 2 then parts[1] else ""
  }

  /** The error an entry raises, stated without splitting: unpacking needs
      exactly one '=', and the key before it must be legal. */
  function EntryError(expr: string): Option<Error> {
    if Occurrences(expr, '=') != 1 then Some(UnpackMismatch(expr))
    else if KeyOf(expr) !in LEGAL_ATTRIBUTES then Some(UnknownAttribute(KeyOf(expr)))
    else None
  }

  /** The attributes so far, and the error that stopped the loop if any. */
  datatype Step = Step(fields: Fields, failure: Option<Error>)

  /** One iteration of the loop: split on '=', unpack into two names,
      then set the attribute or raise. */
  function ApplyEntry(f: Fields, expr: string): (r: Step)
    ensures r.failure == EntryError(expr)
    ensures r.failure.Some? ==> r.fields == f
    ensures r.failure.None? ==> r.fields == SetAttr(f, KeyOf(expr), ValueOf(expr))
  {
    var parts := Split(expr, '=');
    if |parts| != 2 then Step(f, Some(UnpackMismatch(expr)))
    else if parts[0] in LEGAL_ATTRIBUTES then Step(SetAttr(f, parts[0], parts[1]), None)
    else Step(f, Some(UnknownAttribute(parts[0])))
  }

  /** The loop over the entries, in order, stopping at the first error. Each
      attribute either keeps its value or ends up holding an option's text. */
  function ApplyEntries(f: Fields, exprs: seq<string>): (r: Step)
    ensures forall attr :: attr in LEGAL_ATTRIBUTES ==>
      Field(r.fields, attr) == Field(f, attr) || Field(r.fields, attr).Str?
  {
    if exprs == [] then Step(f, None)
    else
      var s := ApplyEntries(f, exprs[..|exprs| - 1]);
      if s.failure.Some? then s else ApplyEntry(s.fields, exprs[|exprs| - 1])
  }

  /** Once an entry has raised, later entries change nothing. */
  lemma {:induction false} FailureSticks(f: Fields, exprs: seq<string>, k: nat)
    requires k <= |exprs|
    requires ApplyEntries(f, exprs[..k]).failure.Some?
    ensures ApplyEntries(f, exprs) == ApplyEntries(f, exprs[..k])
  {
    if k < |exprs| {
      var prefix := exprs[..|exprs| - 1];
      assert prefix[..k] == exprs[..k];
      FailureSticks(f, prefix, k);
    } else {
      assert exprs[..k] == exprs;
    }
  }

  /** One more entry after a prefix that raised nothing is one more step of
      the loop. */
  lemma EntriesStep(f: Fields, exprs: seq<string>, i: nat)
    requires i < |exprs|
    requires ApplyEntries(f, exprs[..i]).failure.None?
    ensures ApplyEntries(f, exprs[..i + 1]) == ApplyEntry(ApplyEntries(f, exprs[..i]).fields, exprs[i])
  {
    assert exprs[..i + 1][..i] == exprs[..i];
  }

  /** The loop raising at entry i is the resolution raising, with the
      attributes as the loop left them. */
  lemma ResolveStopsAt(prior: Fields, pdfopt: Option<string>, i: nat)
    requires i < |Entries(pdfopt)|
    requires ApplyEntries(Seed(prior), Entries(pdfopt)[..i + 1]).failure.Some?
    ensures var s := ApplyEntries(Seed(prior), Entries(pdfopt)[..i + 1]);
      Resolve(prior, pdfopt) == Resolution(s.fields, Err(s.failure.value))
  {
    FailureSticks(Seed(prior), Entries(pdfopt), i + 1);
  }

  /** The loop raises iff some entry is malformed or has an unknown key, and
      then it raises the error of the first such entry. */
  lemma {:induction false} FirstFailure(f: Fields, exprs: seq<string>)
    ensures ApplyEntries(f, exprs).failure.None? <==>
      forall i :: 0 <= i < |exprs| ==> EntryError(exprs[i]).None?
    ensures ApplyEntries(f, exprs).failure.Some? ==>
      exists i :: 0 <= i < |exprs| && EntryError(exprs[i]) == ApplyEntries(f, exprs).failure &&
        forall j :: 0 <= j < i ==> EntryError(exprs[j]).None?
  {
    if exprs != [] {
      var n := |exprs| - 1;
      var prefix := exprs[..n];
      FirstFailure(f, prefix);
      assert forall i :: 0 <= i < n ==> prefix[i] == exprs[i];
      var s := ApplyEntries(f, prefix);
      if s.failure.None? {
        var last := ApplyEntry(s.fields, exprs[n]);
        if last.failure.Some? {
          assert EntryError(exprs[n]) == last.failure;
        }
      } else {
        var i :| 0 <= i < n && EntryError(prefix[i]) == s.failure &&
          forall j :: 0 <= j < i ==> EntryError(prefix[j]).None?;
        assert EntryError(exprs[i]) == s.failure;
      }
    }
  }

  /** The value of the last entry whose key is `attr`, if any. */
  function LastValue(exprs: seq<string>, attr: string): Option<string> {
    if exprs == [] then None
    else if KeyOf(exprs[|exprs| - 1]) == attr then Some(ValueOf(exprs[|exprs| - 1]))
    else LastValue(exprs[..|exprs| - 1], attr)
  }

  /** LastValue finds nothing exactly when no entry has the key. */
  lemma {:induction false} LastValueAbsent(exprs: seq<string>, attr: string)
    ensures LastValue(exprs, attr).None? <==> forall i :: 0 <= i < |exprs| ==> KeyOf(exprs[i]) != attr
  {
    if exprs != [] {
      var n := |exprs| - 1;
      if KeyOf(exprs[n]) != attr {
        var prefix := exprs[..n];
        assert LastValue(exprs, attr) == LastValue(prefix, attr);
        LastValueAbsent(prefix, attr);
        assert forall i :: 0 <= i < n ==> prefix[i] == exprs[i];
      }
    }
  }

  /** A value LastValue finds comes from an entry with the key that no later
      entry with the key follows. */
  lemma {:induction false} LastValueFound(exprs: seq<string>, attr: string)
    ensures LastValue(exprs, attr).Some? ==>
      exists i :: 0 <= i < |exprs| && KeyOf(exprs[i]) == attr &&
        LastValue(exprs, attr) == Some(ValueOf(exprs[i])) &&
        forall j :: i < j < |exprs| ==> KeyOf(exprs[j]) != attr
  {
    if exprs != [] {
      var n := |exprs| - 1;
      if KeyOf(exprs[n]) == attr {
        assert LastValue(exprs, attr) == Some(ValueOf(exprs[n]));
      } else {
        var prefix := exprs[..n];
        assert LastValue(exprs, attr) == LastValue(prefix, attr);
        LastValueFound(prefix, attr);
        if LastValue(prefix, attr).Some? {
          var i :| 0 <= i < n && KeyOf(prefix[i]) == attr &&
            LastValue(prefix, attr) == Some(ValueOf(prefix[i])) &&
            forall j :: i < j < n ==> KeyOf(prefix[j]) != attr;
          assert prefix[i] == exprs[i];
          assert forall j :: i < j < n ==> prefix[j] == exprs[j];
        }
      }
    }
  }

  /** LastValue picks the last entry with the key, and none means no entry
      has it. */
  lemma LastValueIsLast(exprs: seq<string>, attr: string)
    ensures LastValue(exprs, attr).None? <==> forall i :: 0 <= i < |exprs| ==> KeyOf(exprs[i]) != attr
    ensures LastValue(exprs, attr).Some? ==>
      exists i :: 0 <= i < |exprs| && KeyOf(exprs[i]) == attr &&
        LastValue(exprs, attr) == Some(ValueOf(exprs[i])) &&
        forall j :: i < j < |exprs| ==> KeyOf(exprs[j]) != attr
  {
    LastValueAbsent(exprs, attr);
    LastValueFound(exprs, attr);
  }

  /** When no entry raises, each legal attribute holds the text of the last
      entry that names it, and keeps its value when no entry names it: a key
      overwrites only its own attribute, and a later duplicate wins. */
  lemma {:induction false} LastAssignmentWins(f: Fields, exprs: seq<string>, attr: string)
    requires attr in LEGAL_ATTRIBUTES
    requires ApplyEntries(f, exprs).failure.None?
    ensures Field(ApplyEntries(f, exprs).fields, attr) ==
      match LastValue(exprs, attr)
      case Some(v) => Str(v)
      case None => Field(f, attr)
  {
    if exprs != [] {
      var n := |exprs| - 1;
      var prefix := exprs[..n];
      var s := ApplyEntries(f, prefix);
      assert s.failure.None?;
      LastAssignmentWins(f, prefix, attr);
    }
  }

  /** `int(x)`: an int stays, a bool becomes 0 or 1, a string must be a
      decimal literal, and a missing attribute raises AttributeError. */
  function ToInt(name: string, a: Attr): (r: Result<int>)
    ensures r.Ok? <==> a.Int? || a.Bool? || (a.Str? && ParseInt(a.s).Some?)
    ensures a.Int? ==> r == Ok(a.i)
    ensures a.Bool? ==> r == Ok(if a.b then 1 else 0)
    ensures a.Unset? ==> r == Err(MissingAttribute(name))
    ensures a.Str? && r.Err? ==> r.error == InvalidLiteral(a.s)
    ensures a.Str? && r.Ok? ==> r.value == ParseInt(a.s).value
  {
    match a
    case Unset => Err(MissingAttribute(name))
    case Str(s) => if ParseInt(s).Some? then Ok(ParseInt(s).value) else Err(InvalidLiteral(s))
    case Int(i) => Ok(i)
    case Bool(b) => Ok(if b then 1 else 0)
  }

  /** `text.lower() == 'true' or text.lower() == 'on'`. */
  predicate IsOn(text: string) {
    Lower(text) == "true" || Lower(text) == "on"
  }

  /** The encapsulate coercion: only a string has `lower`. */
  function ToFlag(a: Attr): (r: Result<bool>)
    ensures r.Ok? <==> a.Str?
    ensures a.Unset? ==> r == Err(MissingAttribute("encapsulate"))
    ensures a.Int? || a.Bool? ==> r == Err(NoLowerMethod("encapsulate"))
  {
    match a
    case Str(s) => Ok(IsOn(s))
    case Unset => Err(MissingAttribute("encapsulate"))
    case Int(_) => Err(NoLowerMethod("encapsulate"))
    case Bool(_) => Err(NoLowerMethod("encapsulate"))
  }

  /** The encapsulate text is on exactly for the spellings of "true" and "on"
      in any mix of upper and lower case. */
  lemma FlagSpellings(s: string)
    ensures ToFlag(Str(s)) == Ok(
      (|s| == 4 && s[0] in "tT" && s[1] in "rR" && s[2] in "uU" && s[3] in "eE") ||
      (|s| == 2 && s[0] in "oO" && s[1] in "nN"))
  {
    var l := Lower(s);
    assert |l| == |s| && forall i :: 0 <= i < |s| ==> l[i] == LowerChar(s[i]);
    if |s| == 4 {
      assert l == "true" <==> l[0] == 't' && l[1] == 'r' && l[2] == 'u' && l[3] == 'e';
    }
    if |s| == 2 {
      assert l == "on" <==> l[0] == 'o' && l[1] == 'n';
    }
  }

  /** The outcome of the resolver: the attributes it leaves on the instance,
      and the settings or the exception. */
  datatype Resolution = Resolution(fields: Fields, result: Result<Settings>)

  /** Lines 83-87: coerce dpi, then rotate, then encapsulate, storing each
      coerced value back before the next, then validate rotate. */
  function Coerce(f: Fields): (r: Resolution)
    ensures r.result.Ok? ==> r.result.value.rotate == 0 || r.result.value.rotate == 90
    ensures r.result.Ok? ==> r.fields == Fields(Int(r.result.value.dpi), Int(r.result.value.rotate), Bool(r.result.value.encapsulate))
    ensures r.result.Ok? <==> (ToInt("dpi", f.dpi).Ok? && ToInt("rotate", f.rotate).Ok? && ToFlag(f.encapsulate).Ok? &&
      (ToInt("rotate", f.rotate).value == 0 || ToInt("rotate", f.rotate).value == 90))
    ensures r.result.Ok? ==>
      r.result.value == Settings(ToInt("dpi", f.dpi).value, ToInt("rotate", f.rotate).value, ToFlag(f.encapsulate).value)
    ensures ToInt("dpi", f.dpi).Err? ==> r.result == Err(ToInt("dpi", f.dpi).error)
    ensures ToInt("dpi", f.dpi).Ok? && ToInt("rotate", f.rotate).Err? ==>
      r.result == Err(ToInt("rotate", f.rotate).error)
    ensures ToInt("dpi", f.dpi).Ok? && ToInt("rotate", f.rotate).Ok? && ToFlag(f.encapsulate).Err? ==>
      r.result == Err(ToFlag(f.encapsulate).error)
    ensures (ToInt("dpi", f.dpi).Ok? && ToInt("rotate", f.rotate).Ok? && ToFlag(f.encapsulate).Ok? &&
             ToInt("rotate", f.rotate).value != 0 && ToInt("rotate", f.rotate).value != 90) ==>
      r.result == Err(RotateNotImplemented(ToInt("rotate", f.rotate).value))
  {
    match ToInt("dpi", f.dpi)
    case Err(e) => Resolution(f, Err(e))
    case Ok(dpi) =>
      var f1 := f.(dpi := Int(dpi));
      match ToInt("rotate", f1.rotate)
      case Err(e) => Resolution(f1, Err(e))
      case Ok(rotate) =>
        var f2 := f1.(rotate := Int(rotate));
        match ToFlag(f2.encapsulate)
        case Err(e) => Resolution(f2, Err(e))
        case Ok(encapsulate) =>
          var f3 := f2.(encapsulate := Bool(encapsulate));
          if rotate != 0 && rotate != 90 then Resolution(f3, Err(RotateNotImplemented(rotate)))
          else Resolution(f3, Ok(Settings(dpi, rotate, encapsulate)))
  }

  /** Lines 73-87 as a whole, from the attributes the instance held before. */
  function Resolve(prior: Fields, pdfopt: Option<string>): (r: Resolution)
    ensures r.result.Ok? ==> forall i :: 0 <= i < |Entries(pdfopt)| ==> EntryError(Entries(pdfopt)[i]).None?
    ensures r.result.Ok? ==> r.result.value.rotate == 0 || r.result.value.rotate == 90
    ensures r.result.Ok? ==>
      r.fields == Fields(Int(r.result.value.dpi), Int(r.result.value.rotate), Bool(r.result.value.encapsulate))
  {
    FirstFailure(Seed(prior), Entries(pdfopt));
    var s := ApplyEntries(Seed(prior), Entries(pdfopt));
    if s.failure.Some? then Resolution(s.fields, Err(s.failure.value)) else Coerce(s.fields)
  }

  /** Without options dpi is 150 and rotate is 0, and the read succeeds iff
      the encapsulate attribute the instance already held is a string. */
  lemma DefaultsWithoutOptions(prior: Fields, pdfopt: Option<string>)
    requires pdfopt == None || pdfopt == Some("")
    ensures Resolve(prior, pdfopt).result.Ok? <==> prior.encapsulate.Str?
    ensures Resolve(prior, pdfopt).result.Ok? ==>
      Resolve(prior, pdfopt).result.value == Settings(DEFAULT_DPI, DEFAULT_ROTATE, ToFlag(prior.encapsulate).value)
  {
  }

  /** A malformed entry, or one with a key outside the legal set, makes the
      whole resolution raise; the first such entry decides the error. */
  lemma RejectsBadEntry(prior: Fields, pdfopt: Option<string>, i: nat)
    requires i < |Entries(pdfopt)|
    requires EntryError(Entries(pdfopt)[i]).Some?
    requires forall j :: 0 <= j < i ==> EntryError(Entries(pdfopt)[j]).None?
    ensures Resolve(prior, pdfopt).result == Err(EntryError(Entries(pdfopt)[i]).value)
  {
    var exprs := Entries(pdfopt);
    FirstFailure(Seed(prior), exprs);
    var s := ApplyEntries(Seed(prior), exprs);
    var k :| 0 <= k < |exprs| && EntryError(exprs[k]) == s.failure &&
      forall j :: 0 <= j < k ==> EntryError(exprs[j]).None?;
    assert k == i;
  }

  /** A rotate that coerces to anything but 0 or 90 raises, once the entries
      and the other coercions went through. */
  lemma RotateMustBeZeroOrNinety(prior: Fields, pdfopt: Option<string>)
    ensures var r := Resolve(prior, pdfopt).result;
      r.Ok? ==> r.value.rotate == 0 || r.value.rotate == 90
    ensures var s := ApplyEntries(Seed(prior), Entries(pdfopt));
      s.failure.None? && ToInt("dpi", s.fields.dpi).Ok? && ToInt("rotate", s.fields.rotate).Ok? &&
      ToFlag(s.fields.encapsulate).Ok? &&
      ToInt("rotate", s.fields.rotate).value != 0 && ToInt("rotate", s.fields.rotate).value != 90 ==>
      Resolve(prior, pdfopt).result == Err(RotateNotImplemented(ToInt("rotate", s.fields.rotate).value))
  {
  }

  /** A successful resolution yields the last value given for each key,
      coerced: dpi and rotate default to 150 and 0, and encapsulate falls
      back to the instance's earlier text. */
  lemma {:induction false} ResolvedValues(prior: Fields, pdfopt: Option<string>)
    requires Resolve(prior, pdfopt).result.Ok?
    ensures var exprs := Entries(pdfopt);
      var settings := Resolve(prior, pdfopt).result.value;
      && (match LastValue(exprs, "dpi")
          case Some(v) => ParseInt(v) == Some(settings.dpi)
          case None => settings.dpi == DEFAULT_DPI)
      && (match LastValue(exprs, "rotate")
          case Some(v) => ParseInt(v) == Some(settings.rotate)
          case None => settings.rotate == DEFAULT_ROTATE)
      && (match LastValue(exprs, "encapsulate")
          case Some(v) => settings.encapsulate == IsOn(v)
          case None => prior.encapsulate.Str? && settings.encapsulate == IsOn(prior.encapsulate.s))
  {
    var exprs := Entries(pdfopt);
    var s := ApplyEntries(Seed(prior), exprs);
    LastAssignmentWins(Seed(prior), exprs, "dpi");
    LastAssignmentWins(Seed(prior), exprs, "rotate");
    LastAssignmentWins(Seed(prior), exprs, "encapsulate");
  }

  /** An option value that is absent, or that `int()` converts. */
  predicate AbsentOrInteger(value: Option<string>) {
    value.None? || ParseInt(value.value).Some?
  }

  /** After a successful read the instance holds encapsulate as a bool, which
      has no `lower`: a later read on the same instance raises unless its
      options set encapsulate again. When its entries are well formed and its
      dpi and rotate convert, what it raises is the AttributeError of
      `.lower()` on that bool. */
  lemma {:induction false} RereadNeedsEncapsulate(prior: Fields, first: Option<string>, second: Option<string>)
    requires Resolve(prior, first).result.Ok?
    requires forall i :: 0 <= i < |Entries(second)| ==> KeyOf(Entries(second)[i]) != "encapsulate"
    ensures Resolve(Resolve(prior, first).fields, second).result.Err?
    ensures (&& (forall i :: 0 <= i < |Entries(second)| ==> EntryError(Entries(second)[i]).None?)
             && AbsentOrInteger(LastValue(Entries(second), "dpi"))
             && AbsentOrInteger(LastValue(Entries(second), "rotate"))) ==>
      Resolve(Resolve(prior, first).fields, second).result == Err(NoLowerMethod("encapsulate"))
  {
    var f := Resolve(prior, first).fields;
    assert f.encapsulate.Bool?;
    var exprs := Entries(second);
    var s := ApplyEntries(Seed(f), exprs);
    FirstFailure(Seed(f), exprs);
    if s.failure.None? {
      LastValueIsLast(exprs, "encapsulate");
      LastAssignmentWins(Seed(f), exprs, "encapsulate");
      LastAssignmentWins(Seed(f), exprs, "dpi");
      LastAssignmentWins(Seed(f), exprs, "rotate");
      assert s.fields.encapsulate.Bool?;
    }
  }
}
