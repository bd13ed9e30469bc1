/** The rule-based responder `generateRuleBasedResponse` (routes/chatbot.js):
    the message is lowered and searched for keywords, topic by topic in a fixed
    order; the first topic with a keyword present answers, and a message with
    none gets the capability menu. */
module RuleEngine {

  import Text
  import opened EnergyContext

  datatype Topic = Points | Savings | Devices | Tips | Environment | Greeting | Menu

  /** One row of the priority table: a topic and the keywords that select it. */
  datatype Rule = Rule(topic: Topic, keywords: seq<string>)

  /** The topics in priority order, each with its keywords. */
  const Rules: seq<Rule> := [
    Rule(Points, ["point", "score"]),
    Rule(Savings, ["save", "saved"]),
    Rule(Devices, ["appliance", "device"]),
    Rule(Tips, ["tip", "how to", "advice"]),
    Rule(Environment, ["environment", "coal", "co2", "carbon"]),
    Rule(Greeting, ["hello", "hi", "hey"])
  ]

  /** Some keyword of `rule` occurs in the lowered message. */
  predicate Fires(lower: string, rule: Rule)
  {
    exists k :: k in rule.keywords && Text.Contains(lower, k)
  }

  /** The topic of the first rule that fires, or the menu. */
  function FirstMatch(lower: string, rules: seq<Rule>): (t: Topic)
    ensures t == Menu || exists i :: 0 <= i < |rules| && rules[i].topic == t
  {
    if |rules| == 0 then Menu
    else if Fires(lower, rules[0]) then rules[0].topic
    else FirstMatch(lower, rules[1..])
  }

  /** A table whose topics are distinct and never the menu. */
  predicate DistinctTopics(rules: seq<Rule>)
  {
    && (forall i :: 0 <= i < |rules| ==> rules[i].topic != Menu)
    && (forall i, j :: 0 <= i < j < |rules| ==> rules[i].topic != rules[j].topic)
  }

  /** In a table of distinct topics, the first match picks rule `i` exactly
      when rule `i` fires and no earlier rule does. */
  lemma {:induction false} FirstMatchIsEarliest(lower: string, rules: seq<Rule>, i: nat)
    requires DistinctTopics(rules)
    requires i < |rules|
    ensures FirstMatch(lower, rules) == rules[i].topic
            <==> Fires(lower, rules[i]) && forall j :: 0 <= j < i ==> !Fires(lower, rules[j])
    decreases i
  {
    var tail := rules[1..];
    DistinctTail(rules);
    FirstMatchStep(lower, rules);
    if i > 0 {
      FirstMatchIsEarliest(lower, tail, i - 1);
      assert tail[i - 1] == rules[i];
      assert rules[0].topic != rules[i].topic;
      NoneFiresBefore(lower, rules, i);
    }
  }

  lemma DistinctTail(rules: seq<Rule>)
    requires DistinctTopics(rules) && |rules| > 0
    ensures DistinctTopics(rules[1..])
  {
    var tail := rules[1..];
    forall a | 0 <= a < |tail| ensures tail[a] == rules[a + 1] { }
  }

  /** No rule before `i` fires exactly when the first does not and no rule of
      the rest before `i - 1` does. */
  lemma NoneFiresBefore(lower: string, rules: seq<Rule>, i: nat)
    requires 0 < i <= |rules|
    ensures (forall j :: 0 <= j < i ==> !Fires(lower, rules[j]))
            <==> !Fires(lower, rules[0]) && (forall j :: 0 <= j < i - 1 ==> !Fires(lower, rules[1..][j]))
  {
    var tail := rules[1..];
    forall j | 0 <= j < i - 1 ensures tail[j] == rules[j + 1] { }
  }

  /** The first match is the menu exactly when no rule fires. */
  lemma {:induction false} FirstMatchIsMenu(lower: string, rules: seq<Rule>)
    requires DistinctTopics(rules)
    ensures FirstMatch(lower, rules) == Menu <==> forall j :: 0 <= j < |rules| ==> !Fires(lower, rules[j])
    decreases |rules|
  {
    if |rules| > 0 {
      var tail := rules[1..];
      DistinctTail(rules);
      FirstMatchIsMenu(lower, tail);
      NoneFiresBefore(lower, rules, |rules|);
    }
  }

  /** The topic a message selects. */
  function Classify(message: string): Topic
  {
    FirstMatch(Text.Lower(message), Rules)
  }

  // ---------------------------------------------------------------------------
  // The replies
  // ---------------------------------------------------------------------------

  function PointsReply(d: Bundle): string
  {
    "You currently have " + Text.NatToString(d.totalEnergyPoints) + " energy points! Keep saving energy to earn more points."
  }

  function SavingsReply(d: Bundle): string
  {
    "Great job! You've saved " + Text.NatToString(d.totalEnergySaved) + " kWh of energy. This is equivalent to "
    + Text.NatToString(d.totalCoalSaved) + " kg of coal not burned and " + Text.NatToString(d.totalCo2Reduced)
    + " kg of CO2 emissions prevented!"
  }

  const NoDevicesReply := "You have no appliances connected yet. Connect your appliances to track their energy consumption!"

  function DeviceHeader(count: nat): string
  {
    "You have " + Text.NatToString(count) + " appliance(s) connected:"
  }

  function Bullet(e: SummaryEntry): string
  {
    "• " + e.name + ": " + Text.NatToString(e.powerConsumption) + "W"
  }

  function Bullets(entries: seq<SummaryEntry>): (lines: seq<string>)
    ensures |lines| == |entries|
    ensures forall i :: 0 <= i < |entries| ==> lines[i] == Bullet(entries[i])
  {
    seq(|entries|, i requires 0 <= i < |entries| => Bullet(entries[i]))
  }

  function DevicesReply(d: Bundle): string
  {
    if d.applianceCount == 0 then NoDevicesReply
    else DeviceHeader(d.applianceCount) + "\n" + Text.Join(Bullets(d.applianceSummary), "\n")
  }

  const TipsReply := "Here are some energy-saving tips:\n• Turn off unused appliances\n• Use LED bulbs\n• Set your AC to 24-26°C\n• Unplug chargers when not in use"

  function EnvironmentReply(d: Bundle): string
  {
    "Your environmental impact:\n• Coal saved: " + Text.NatToString(d.totalCoalSaved) + " kg\n• CO2 reduced: "
    + Text.NatToString(d.totalCo2Reduced) + " kg\nYou're making a positive difference!"
  }

  const GreetingReply := "Hello! I'm your EcoWatt energy assistant. Ask me about your energy usage, tips to save power, or your environmental impact!"

  const MenuReply := "I can help you with:\n• Your energy points and savings\n• Appliance usage information\n• Energy-saving tips\n• Your environmental impact\n\nWhat would you like to know?"

  /** The reply for a topic; every topic has something to say. */
  function Render(t: Topic, d: Bundle): (r: string)
    ensures |r| > 0
  {
    match t
    case Points => PointsReply(d)
    case Savings => SavingsReply(d)
    case Devices => DevicesReply(d)
    case Tips => TipsReply
    case Environment => EnvironmentReply(d)
    case Greeting => GreetingReply
    case Menu => MenuReply
  }

  /** `generateRuleBasedResponse`: lower the message, pick the topic with the
      chain of keyword tests, and answer with that topic's reply. It answers
      every message, with a non-empty reply. */
  function Respond(message: string, d: Bundle): (reply: string)
    ensures |reply| > 0
  {
    Render(TopicOf(Text.Lower(message)), d)
  }

  /** The topic the chain of keyword tests selects: the priority table's
      first match. */
  function TopicOf(lower: string): (t: Topic)
    ensures t == FirstMatch(lower, Rules)
  {
    ChainFollowsTable(lower);
    KeywordChain(lower)
  }

  /** The chain of keyword tests, in source order, on the lowered message. */
  function KeywordChain(lower: string): Topic
  {
    if Text.Contains(lower, "point") || Text.Contains(lower, "score") then Points
    else if Text.Contains(lower, "save") || Text.Contains(lower, "saved") then Savings
    else if Text.Contains(lower, "appliance") || Text.Contains(lower, "device") then Devices
    else if Text.Contains(lower, "tip") || Text.Contains(lower, "how to") || Text.Contains(lower, "advice") then Tips
    else if Text.Contains(lower, "environment") || Text.Contains(lower, "coal") || Text.Contains(lower, "co2")
            || Text.Contains(lower, "carbon") then Environment
    else if Text.Contains(lower, "hello") || Text.Contains(lower, "hi") || Text.Contains(lower, "hey") then Greeting
    else Menu
  }

  // ---------------------------------------------------------------------------
  // Properties
  // ---------------------------------------------------------------------------

  lemma RulesHaveDistinctTopics()
    ensures DistinctTopics(Rules)
  {
  }

  /** The chain of tests is the priority table read top to bottom. */
  lemma RespondFollowsTable(message: string, d: Bundle)
    ensures Respond(message, d) == Render(Classify(message), d)
  {
    ChainFollowsTable(Text.Lower(message));
  }

  lemma ChainFollowsTable(lower: string)
    ensures KeywordChain(lower) == FirstMatch(lower, Rules)
  {
    var r0, r1, r2, r3, r4, r5 := Rules[0], Rules[1], Rules[2], Rules[3], Rules[4], Rules[5];
    FiresTwo(lower, r0, "point", "score");
    FiresTwo(lower, r1, "save", "saved");
    FiresTwo(lower, r2, "appliance", "device");
    FiresThree(lower, r3, "tip", "how to", "advice");
    FiresFour(lower, r4, "environment", "coal", "co2", "carbon");
    FiresThree(lower, r5, "hello", "hi", "hey");
    var t := FirstMatch(lower, Rules);
    FirstMatchStep(lower, Rules);
    FirstMatchStep(lower, [r1, r2, r3, r4, r5]);
    FirstMatchStep(lower, [r2, r3, r4, r5]);
    FirstMatchStep(lower, [r3, r4, r5]);
    FirstMatchStep(lower, [r4, r5]);
    FirstMatchStep(lower, [r5]);
    assert Rules[1..] == [r1, r2, r3, r4, r5];
    if Fires(lower, r0) {
      assert t == Points;
    } else if Fires(lower, r1) {
      assert t == Savings;
    } else if Fires(lower, r2) {
      assert t == Devices;
    } else if Fires(lower, r3) {
      assert t == Tips;
    } else if Fires(lower, r4) {
      assert t == Environment;
    } else if Fires(lower, r5) {
      assert t == Greeting;
    } else {
      assert t == Menu;
    }
  }

  /** One step of the first-match scan. */
  lemma FirstMatchStep(lower: string, rules: seq<Rule>)
    requires |rules| > 0
    ensures FirstMatch(lower, rules)
            == if Fires(lower, rules[0]) then rules[0].topic else FirstMatch(lower, rules[1..])
  {
  }

  lemma FiresTwo(lower: string, r: Rule, a: string, b: string)
    requires r.keywords == [a, b]
    ensures Fires(lower, r) <==> Text.Contains(lower, a) || Text.Contains(lower, b)
  {
    if Text.Contains(lower, a) { assert a in r.keywords; }
    if Text.Contains(lower, b) { assert b in r.keywords; }
  }

  lemma FiresThree(lower: string, r: Rule, a: string, b: string, c: string)
    requires r.keywords == [a, b, c]
    ensures Fires(lower, r) <==> Text.Contains(lower, a) || Text.Contains(lower, b) || Text.Contains(lower, c)
  {
    if Text.Contains(lower, a) { assert a in r.keywords; }
    if Text.Contains(lower, b) { assert b in r.keywords; }
    if Text.Contains(lower, c) { assert c in r.keywords; }
  }

  lemma FiresFour(lower: string, r: Rule, a: string, b: string, c: string, e: string)
    requires r.keywords == [a, b, c, e]
    ensures Fires(lower, r)
            <==> Text.Contains(lower, a) || Text.Contains(lower, b) || Text.Contains(lower, c) || Text.Contains(lower, e)
  {
    if Text.Contains(lower, a) { assert a in r.keywords; }
    if Text.Contains(lower, b) { assert b in r.keywords; }
    if Text.Contains(lower, c) { assert c in r.keywords; }
    if Text.Contains(lower, e) { assert e in r.keywords; }
  }

  /** The reply depends on the message only through its topic: a message
      selects the reply of topic `t` exactly when `t`'s rule is the first to
      fire. */
  lemma RespondByPriority(message: string, d: Bundle, i: nat)
    requires i < |Rules|
    ensures Classify(message) == Rules[i].topic
            <==> Fires(Text.Lower(message), Rules[i])
                 && forall j :: 0 <= j < i ==> !Fires(Text.Lower(message), Rules[j])
    ensures Classify(message) == Rules[i].topic ==> Respond(message, d) == Render(Rules[i].topic, d)
  {
    RulesHaveDistinctTopics();
    FirstMatchIsEarliest(Text.Lower(message), Rules, i);
    RespondFollowsTable(message, d);
  }

  /** A message with no keyword of any rule gets the menu, and only such a message. */
  lemma MenuExactlyWithoutKeywords(message: string, d: Bundle)
    ensures Classify(message) == Menu <==> forall j :: 0 <= j < |Rules| ==> !Fires(Text.Lower(message), Rules[j])
    ensures Classify(message) == Menu ==> Respond(message, d) == MenuReply
  {
    RulesHaveDistinctTopics();
    FirstMatchIsMenu(Text.Lower(message), Rules);
    MenuReplyForMenu(message, d);
  }

  lemma MenuReplyForMenu(message: string, d: Bundle)
    ensures Classify(message) == Menu ==> Respond(message, d) == MenuReply
  {
    RespondFollowsTable(message, d);
  }

  /** Matching ignores the case of ASCII letters. */
  lemma RespondIgnoresCase(m1: string, m2: string, d: Bundle)
    requires Text.SameIgnoringAsciiCase(m1, m2)
    ensures Respond(m1, d) == Respond(m2, d)
  {
    Text.LowerIgnoresCase(m1, m2);
  }

  /** A message already in lower case gets the same reply as its original:
      lowering is idempotent. */
  lemma RespondToLowered(message: string, d: Bundle)
    ensures Respond(Text.Lower(message), d) == Respond(message, d)
  {
    Text.LowerIdempotent(message);
  }

  /** The "saved" keyword adds nothing: any message containing it contains "save". */
  lemma SavedImpliesSave(lower: string)
    requires Text.Contains(lower, "saved")
    ensures Text.Contains(lower, "save")
  {
    Text.ContainsPrefixOfKey(lower, "saved", 4);
    assert "saved"[..4] == "save";
  }

  /** Savings outrank the environment: a message mentioning saving but no
      points or score gets the savings reply even if it also mentions the
      environment. */
  lemma SavingsBeforeEnvironment(message: string, d: Bundle)
    requires var lower := Text.Lower(message);
             Text.Contains(lower, "save") && Text.Contains(lower, "environment")
             && !Text.Contains(lower, "point") && !Text.Contains(lower, "score")
    ensures Respond(message, d) == SavingsReply(d)
    ensures Classify(message) == Savings
  {
    var lower := Text.Lower(message);
    TopicIsSavings(lower);
    ChainFollowsTable(lower);
    RespondOnTopic(message, d, Savings);
  }

  /** Points outrank savings. */
  lemma PointsBeforeSavings(message: string, d: Bundle)
    requires var lower := Text.Lower(message); Text.Contains(lower, "point") || Text.Contains(lower, "score")
    ensures Respond(message, d) == PointsReply(d)
    ensures Classify(message) == Points
  {
    RespondByPriority(message, d, 0);
    assert "point" in Rules[0].keywords && "score" in Rules[0].keywords;
  }

  /** An appliance question with no appliances gets the fixed prompt to connect one. */
  lemma NoDevicesPrompt(message: string, d: Bundle)
    requires Classify(message) == Devices
    requires d.applianceCount == 0
    ensures Respond(message, d) == NoDevicesReply
  {
    RespondFollowsTable(message, d);
  }

  /** An appliance question with appliances gets a header with the count and
      then one bullet line per appliance, in order. Read line by line (no
      appliance name holding a line break), the reply is the header followed
      by the bullets. */
  lemma DevicesListed(message: string, d: Bundle)
    requires Classify(message) == Devices
    requires Consistent(d) && d.applianceCount > 0
    requires forall i :: 0 <= i < |d.applianceSummary| ==> !Text.Contains(d.applianceSummary[i].name, "\n")
    ensures Text.Split(Respond(message, d), "\n") == [DeviceHeader(d.applianceCount)] + Bullets(d.applianceSummary)
  {
    RespondFollowsTable(message, d);
    var lines := [DeviceHeader(d.applianceCount)] + Bullets(d.applianceSummary);
    Text.JoinCons(DeviceHeader(d.applianceCount), Bullets(d.applianceSummary), "\n");
    assert Respond(message, d) == Text.Join(lines, "\n");
    forall k | 0 <= k < |lines|
      ensures !Text.Contains(lines[k], "\n")
    {
      if k == 0 {
        HeaderHasNoNewline(d.applianceCount);
      } else {
        assert lines[k] == Bullet(d.applianceSummary[k - 1]);
        BulletHasNoNewline(d.applianceSummary[k - 1]);
      }
    }
    assert Text.NoProperBorder("\n");
    Text.SplitJoin(lines, "\n");
  }

  lemma HeaderHasNoNewline(count: nat)
    ensures !Text.Contains(DeviceHeader(count), "\n")
  {
    assert '\n' !in Text.NatToString(count);
    Text.ContainsChar(DeviceHeader(count), '\n');
  }

  lemma BulletHasNoNewline(e: SummaryEntry)
    requires !Text.Contains(e.name, "\n")
    ensures !Text.Contains(Bullet(e), "\n")
  {
    Text.ContainsChar(e.name, '\n');
    assert '\n' !in Text.NatToString(e.powerConsumption);
    Text.ContainsChar(Bullet(e), '\n');
  }

  /** The greeting keywords are plain substrings: the "hi" inside "which"
      triggers the greeting, since no earlier rule fires. */
  lemma GreetingInsideWord(message: string, d: Bundle)
    requires Text.Lower(message) == "which one?"
    ensures Respond(message, d) == GreetingReply
  {
    WhichOneIsGreeting(Text.Lower(message));
    RespondWithGreeting(message, d);
  }

  lemma RespondWithGreeting(message: string, d: Bundle)
    requires TopicOf(Text.Lower(message)) == Greeting
    ensures Respond(message, d) == GreetingReply
  {
    RespondOnTopic(message, d, Greeting);
  }

  lemma RespondOnTopic(message: string, d: Bundle, t: Topic)
    requires TopicOf(Text.Lower(message)) == t
    ensures Respond(message, d) == Render(t, d)
  {
  }

  lemma WhichOneIsGreeting(lower: string)
    requires lower == "which one?"
    ensures TopicOf(lower) == Greeting
  {
    WhichOneFirstRules(lower);
    WhichOneNoTips(lower);
    WhichOneNoEnvironment(lower);
    WhichOneHasHi(lower);
    TopicIsGreeting(lower);
  }

  lemma WhichOneHasHi(lower: string)
    requires lower == "which one?"
    ensures Text.Contains(lower, "hi")
  {
    assert lower == "w" + "hi" + "ch one?";
    Text.ContainsInfix("w", "hi", "ch one?");
  }

  lemma WhichOneFirstRules(lower: string)
    requires lower == "which one?"
    ensures !Text.Contains(lower, "point") && !Text.Contains(lower, "score")
    ensures !Text.Contains(lower, "save") && !Text.Contains(lower, "saved")
    ensures !Text.Contains(lower, "appliance") && !Text.Contains(lower, "device")
  {
    Text.AbsentByChar(lower, "point", 0);
    Text.AbsentByChar(lower, "score", 0);
    Text.AbsentByChar(lower, "save", 0);
    Text.AbsentByChar(lower, "saved", 0);
    Text.AbsentByChar(lower, "appliance", 0);
    Text.AbsentByChar(lower, "device", 0);
  }

  lemma WhichOneNoTips(lower: string)
    requires lower == "which one?"
    ensures !Text.Contains(lower, "tip") && !Text.Contains(lower, "how to") && !Text.Contains(lower, "advice")
  {
    Text.AbsentByChar(lower, "tip", 0);
    Text.AbsentByChar(lower, "how to", 4);
    Text.AbsentByChar(lower, "advice", 0);
  }

  lemma WhichOneNoEnvironment(lower: string)
    requires lower == "which one?"
    ensures !Text.Contains(lower, "environment") && !Text.Contains(lower, "coal")
    ensures !Text.Contains(lower, "co2") && !Text.Contains(lower, "carbon")
  {
    Text.AbsentByChar(lower, "environment", 2);
    Text.AbsentByChar(lower, "coal", 2);
    Text.AbsentByChar(lower, "co2", 2);
    Text.AbsentByChar(lower, "carbon", 1);
  }

  lemma TopicIsGreeting(lower: string)
    requires !Text.Contains(lower, "point") && !Text.Contains(lower, "score")
    requires !Text.Contains(lower, "save") && !Text.Contains(lower, "saved")
    requires !Text.Contains(lower, "appliance") && !Text.Contains(lower, "device")
    requires !Text.Contains(lower, "tip") && !Text.Contains(lower, "how to") && !Text.Contains(lower, "advice")
    requires !Text.Contains(lower, "environment") && !Text.Contains(lower, "coal")
    requires !Text.Contains(lower, "co2") && !Text.Contains(lower, "carbon")
    requires Text.Contains(lower, "hi")
    ensures TopicOf(lower) == Greeting
  {
  }

  /** A question about saving and the environment gets the savings reply. */
  lemma SavingsExample(message: string, d: Bundle)
    requires Text.Lower(message) == "did i save the environment?"
    ensures Respond(message, d) == SavingsReply(d)
  {
    SaveEnvironmentIsSavings(Text.Lower(message));
    RespondOnTopic(message, d, Savings);
  }

  lemma SaveEnvironmentIsSavings(lower: string)
    requires lower == "did i save the environment?"
    ensures TopicOf(lower) == Savings
  {
    SaveEnvironmentHasSave(lower);
    Text.AbsentByChar(lower, "point", 0);
    Text.AbsentByChar(lower, "score", 1);
    TopicIsSavings(lower);
  }

  lemma SaveEnvironmentHasSave(lower: string)
    requires lower == "did i save the environment?"
    ensures Text.Contains(lower, "save")
  {
    assert lower == "did i " + "save" + " the environment?";
    Text.ContainsInfix("did i ", "save", " the environment?");
  }

  lemma TopicIsSavings(lower: string)
    requires !Text.Contains(lower, "point") && !Text.Contains(lower, "score")
    requires Text.Contains(lower, "save")
    ensures TopicOf(lower) == Savings
  {
  }

  /** Asking about appliances without any gets the prompt to connect one. */
  lemma NoDevicesExample(message: string, d: Bundle)
    requires Text.Lower(message) == "show my appliances"
    requires d.applianceCount == 0
    ensures Respond(message, d) == NoDevicesReply
  {
    ShowAppliancesIsDevices(Text.Lower(message));
    RespondOnTopic(message, d, Devices);
  }

  lemma ShowAppliancesIsDevices(lower: string)
    requires lower == "show my appliances"
    ensures TopicOf(lower) == Devices
  {
    ShowAppliancesHasAppliance(lower);
    Text.AbsentByChar(lower, "point", 4);
    Text.AbsentByChar(lower, "score", 3);
    Text.AbsentByChar(lower, "save", 2);
    Text.AbsentByChar(lower, "saved", 2);
    TopicIsDevices(lower);
  }

  lemma ShowAppliancesHasAppliance(lower: string)
    requires lower == "show my appliances"
    ensures Text.Contains(lower, "appliance")
  {
    assert lower == "show my " + "appliance" + "s";
    Text.ContainsInfix("show my ", "appliance", "s");
  }

  lemma TopicIsDevices(lower: string)
    requires !Text.Contains(lower, "point") && !Text.Contains(lower, "score")
    requires !Text.Contains(lower, "save") && !Text.Contains(lower, "saved")
    requires Text.Contains(lower, "appliance")
    ensures TopicOf(lower) == Devices
  {
  }
}
