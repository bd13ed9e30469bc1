/** The assistant's context aggregation (routes/chatbot.js, the start of the
    POST handler): a user document and that user's appliances become a numeric
    bundle for the rule engine and a text block for the generative prompt. */
module EnergyContext {

  import opened Optional
  import opened Records
  import Text
  import Auth

  /** One appliance as the assistant sees it. */
  datatype SummaryEntry = SummaryEntry(name: string, status: Option<string>, powerConsumption: nat, usageHours: nat)

  /** The figures the rule engine is given. */
  datatype Bundle = Bundle(
    totalEnergyPoints: nat,
    totalEnergySaved: nat,
    totalCoalSaved: nat,
    totalCo2Reduced: nat,
    applianceCount: nat,
    applianceSummary: seq<SummaryEntry>
  )

  /** The count agrees with the listed appliances. */
  predicate Consistent(b: Bundle)
  {
    b.applianceCount == |b.applianceSummary|
  }

  /** The bundle the handler's failure path uses in place of the user's data. */
  const ZeroBundle := Bundle(0, 0, 0, 0, 0, [])

  /** JavaScript `v || 0` on a stored number: absent and zero both give 0. */
  function OrZero(v: Option<nat>): nat
  {
    v.GetOr(0)
  }

  function Summarize(a: Appliance): SummaryEntry
  {
    SummaryEntry(a.name, a.status, OrZero(a.powerConsumption), OrZero(a.usageHours))
  }

  /** The bundle for a user and that user's appliances. */
  function Aggregate(user: User, apps: seq<Appliance>): (b: Bundle)
    ensures Consistent(b) && b.applianceCount == |apps|
    ensures user.energyPoints.None? ==> b.totalEnergyPoints == 0
    ensures user.energySaved.None? ==> b.totalEnergySaved == 0
    ensures user.coalSaved.None? ==> b.totalCoalSaved == 0
    ensures user.co2Reduced.None? ==> b.totalCo2Reduced == 0
    ensures user.energyPoints.Some? ==> b.totalEnergyPoints == user.energyPoints.value
    ensures user.energySaved.Some? ==> b.totalEnergySaved == user.energySaved.value
    ensures user.coalSaved.Some? ==> b.totalCoalSaved == user.coalSaved.value
    ensures user.co2Reduced.Some? ==> b.totalCo2Reduced == user.co2Reduced.value
    ensures forall i :: 0 <= i < |apps| ==>
              var e := b.applianceSummary[i];
              && e.name == apps[i].name && e.status == apps[i].status
              && (apps[i].powerConsumption.None? ==> e.powerConsumption == 0)
              && (apps[i].powerConsumption.Some? ==> e.powerConsumption == apps[i].powerConsumption.value)
              && (apps[i].usageHours.None? ==> e.usageHours == 0)
              && (apps[i].usageHours.Some? ==> e.usageHours == apps[i].usageHours.value)
  {
    Bundle(
      OrZero(user.energyPoints), OrZero(user.energySaved), OrZero(user.coalSaved), OrZero(user.co2Reduced),
      |apps|, seq(|apps|, i requires 0 <= i < |apps| => Summarize(apps[i])))
  }

  /** A freshly registered user with no appliances has exactly the failure
      path's all-zero bundle. */
  lemma NewUserHasZeroBundle(store: Auth.UserStore, req: Auth.SignupRequest, freshId: string, hash: string -> string)
    requires Auth.Signup(store, req, freshId, hash).0.Registered?
    ensures Aggregate(Auth.Signup(store, req, freshId, hash).1[req.email.value], []) == ZeroBundle
  {
  }

  // ---------------------------------------------------------------------------
  // The text block for the generative prompt
  // ---------------------------------------------------------------------------

  const NoAppliancesLine := "No appliances connected"

  /** A template literal renders an absent field as "undefined". */
  function StatusText(status: Option<string>): string
  {
    match status
    case Some(s) => s
    case None => "undefined"
  }

  function ContextLine(e: SummaryEntry): string
  {
    "- " + e.name + ": " + Text.NatToString(e.powerConsumption) + "W, "
    + Text.NatToString(e.usageHours) + " hours/day, Status: " + StatusText(e.status)
  }

  function ContextLines(entries: seq<SummaryEntry>): (lines: seq<string>)
    ensures |lines| == |entries|
    ensures forall i :: 0 <= i < |entries| ==> lines[i] == ContextLine(entries[i])
  {
    if |entries| == 0 then [] else [ContextLine(entries[0])] + ContextLines(entries[1..])
  }

  /** The fixed lines and the figures, up to the appliance list. */
  function ContextHeader(name: string, b: Bundle): string
  {
    "User Information:\n- Name: " + name
    + "\n- Energy Points: " + Text.NatToString(b.totalEnergyPoints)
    + "\n- Energy Saved: " + Text.NatToString(b.totalEnergySaved) + " kWh"
    + "\n- Coal Saved: " + Text.NatToString(b.totalCoalSaved) + " kg"
    + "\n- CO2 Reduced: " + Text.NatToString(b.totalCo2Reduced) + " kg"
    + "\n\nAppliances:\n"
  }

  /** One line per appliance, or the fixed line when there are none. */
  function ApplianceBlock(b: Bundle): string
  {
    if |b.applianceSummary| > 0 then Text.Join(ContextLines(b.applianceSummary), "\n") else NoAppliancesLine
  }

  /** The text block before trimming its surrounding whitespace. */
  function ContextBody(name: string, b: Bundle): string
  {
    ContextHeader(name, b) + ApplianceBlock(b)
  }

  /** The text block as the template literal builds it (a leading line break
      and trailing indentation) and then trims it: the header survives whole,
      and only trailing whitespace of the body is lost. */
  function UserContext(user: User, apps: seq<Appliance>): (ctx: string)
    ensures var b := Aggregate(user, apps);
            |ContextHeader(user.name, b)| < |ctx| && TrailingSpaceCut(ContextBody(user.name, b), ctx)
  {
    TrimmedContext(user.name, Aggregate(user, apps));
    Text.Trim("\n" + ContextBody(user.name, Aggregate(user, apps)) + "\n    ")
  }

  /** `ctx` is `body` with exactly its trailing whitespace removed. */
  predicate TrailingSpaceCut(body: string, ctx: string)
  {
    && |ctx| <= |body| && ctx == body[..|ctx|] && Text.AllSpace(body[|ctx|..])
    && (|ctx| > 0 ==> !Text.IsJsSpace(ctx[|ctx| - 1]))
  }

  /** Trimming the template of any name and bundle keeps the header and cuts
      exactly the body's trailing whitespace. */
  lemma TrimmedContext(name: string, b: Bundle)
    ensures var body := ContextBody(name, b);
            var ctx := Text.Trim("\n" + body + "\n    ");
            |ContextHeader(name, b)| < |ctx| && TrailingSpaceCut(body, ctx)
  {
    var header := ContextHeader(name, b);
    var body := ContextBody(name, b);
    BlockStartsVisibly(b);
    assert body[0] == header[0] == 'U';
    assert body[|header|] == ApplianceBlock(b)[0];
    TrimTemplateKeepsHead(body, |header|);
  }

  /** Without appliances the block is exactly the body, which ends with the
      "No appliances connected" line. */
  lemma ContextWithoutAppliances(user: User)
    ensures UserContext(user, []) == ContextBody(user.name, Aggregate(user, []))
    ensures var ctx := UserContext(user, []);
            |ctx| >= |NoAppliancesLine| && ctx[|ctx| - |NoAppliancesLine|..] == NoAppliancesLine
  {
    var body := ContextBody(user.name, Aggregate(user, []));
    assert body[0] == 'U';
    assert body[|body| - 1] == 'd';
    TrimTemplate(body);
  }

  /** When the last appliance's status does not end in whitespace, trimming
      removes only the template's own padding: the block is the body. */
  lemma ContextKeepsBody(user: User, apps: seq<Appliance>)
    requires |apps| > 0
    requires var s := StatusText(apps[|apps| - 1].status); |s| > 0 && !Text.IsJsSpace(s[|s| - 1])
    ensures UserContext(user, apps) == ContextBody(user.name, Aggregate(user, apps))
  {
    var b := Aggregate(user, apps);
    assert b.applianceSummary[|apps| - 1].status == apps[|apps| - 1].status;
    BlockEndsWithStatus(b);
    BodyEndsVisibly(user.name, b);
    KeptThroughVisibleEnd(ContextBody(user.name, b), UserContext(user, apps));
  }

  lemma BodyEndsVisibly(name: string, b: Bundle)
    requires var block := ApplianceBlock(b); |block| > 0 && !Text.IsJsSpace(block[|block| - 1])
    ensures var body := ContextBody(name, b); |body| > 0 && !Text.IsJsSpace(body[|body| - 1])
  {
    var block := ApplianceBlock(b);
    var body := ContextBody(name, b);
    assert body[|body| - 1] == block[|block| - 1];
  }

  /** A prefix of `body` followed in it only by whitespace is all of `body`
      when `body` ends with a visible character. */
  lemma KeptThroughVisibleEnd(body: string, ctx: string)
    requires |body| > 0 && !Text.IsJsSpace(body[|body| - 1])
    requires |ctx| <= |body| && ctx == body[..|ctx|] && Text.AllSpace(body[|ctx|..])
    ensures ctx == body
  {
  }

  /** The appliance block starts with a visible character: a list bullet or
      the fixed line. */
  lemma BlockStartsVisibly(b: Bundle)
    ensures var block := ApplianceBlock(b); |block| > 0 && !Text.IsJsSpace(block[0])
  {
    if |b.applianceSummary| > 0 {
      var lines := ContextLines(b.applianceSummary);
      assert lines[0][0] == '-';
      JoinStartsWithFirst(lines, "\n");
    }
  }

  /** Trimming the template keeps the body from its first character through
      its last visible one, and so every character up to a visible one at `h`. */
  lemma TrimTemplateKeepsHead(body: string, h: nat)
    requires h < |body| && !Text.IsJsSpace(body[0]) && !Text.IsJsSpace(body[h])
    ensures var ctx := Text.Trim("\n" + body + "\n    ");
            h < |ctx| <= |body| && ctx == body[..|ctx|] && Text.AllSpace(body[|ctx|..])
  {
    var s := "\n" + body + "\n    ";
    var ctx := Text.Trim(s);
    assert s[1] == body[0] && s[1 + h] == body[h];
    assert Text.StartIndex(s) == 1;
    assert h < |ctx| <= |body|;
    assert s[1..1 + |ctx|] == body[..|ctx|];
    forall k | 0 <= k < |body| - |ctx|
      ensures Text.IsJsSpace(body[|ctx|..][k])
    {
      assert body[|ctx|..][k] == s[1 + |ctx|..][k];
    }
  }

  /** The appliance list ends with the last appliance's status. */
  lemma BlockEndsWithStatus(b: Bundle)
    requires |b.applianceSummary| > 0
    requires var s := StatusText(b.applianceSummary[|b.applianceSummary| - 1].status);
             |s| > 0 && !Text.IsJsSpace(s[|s| - 1])
    ensures var block := ApplianceBlock(b); |block| > 0 && !Text.IsJsSpace(block[|block| - 1])
  {
    LastContextLine(b.applianceSummary);
    JoinEndsWithLast(ContextLines(b.applianceSummary), "\n");
  }

  /** Trimming removes exactly the template's leading line break and trailing
      indentation from a body that starts and ends with non-whitespace. */
  lemma TrimTemplate(body: string)
    requires |body| > 0 && !Text.IsJsSpace(body[0]) && !Text.IsJsSpace(body[|body| - 1])
    ensures Text.Trim("\n" + body + "\n    ") == body
  {
    Text.TrimPadded("\n", body, "\n    ");
  }

  lemma {:induction false} LastContextLine(entries: seq<SummaryEntry>)
    requires |entries| > 0
    ensures var line := ContextLines(entries)[|entries| - 1];
            var s := StatusText(entries[|entries| - 1].status);
            |line| > 0 && (|s| > 0 ==> line[|line| - 1] == s[|s| - 1])
    decreases |entries|
  {
    if |entries| > 1 {
      LastContextLine(entries[1..]);
      assert ContextLines(entries)[1..] == ContextLines(entries[1..]);
    }
  }

  lemma JoinStartsWithFirst(pieces: seq<string>, sep: string)
    requires |pieces| > 0 && |pieces[0]| > 0
    ensures var j := Text.Join(pieces, sep); |j| > 0 && j[0] == pieces[0][0]
  {
  }

  lemma {:induction false} JoinEndsWithLast(pieces: seq<string>, sep: string)
    requires |pieces| > 0 && |pieces[|pieces| - 1]| > 0
    ensures var j := Text.Join(pieces, sep);
            var last := pieces[|pieces| - 1];
            |j| > 0 && j[|j| - 1] == last[|last| - 1]
    decreases |pieces|
  {
    if |pieces| > 1 {
      JoinEndsWithLast(pieces[1..], sep);
    }
  }
}
