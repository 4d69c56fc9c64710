/** The application edit form: what it shows for a stored application, what saving it stores, and the policy the
    stored fields resolve to.

    Rendering here is the handler, the template and a browser that submits the form untouched, together. */
module AppForm {
  import opened Wrappers
  import opened Text
  import Strconv

  // ----- stored fields; None is NULL, "use the default" -----

  datatype Lockout = Lockout(enabled: Option<bool>, threshold: Option<int>, durations: Option<string>,
                             window: Option<string>, tierTTL: Option<string>)

  datatype Delay = Delay(enabled: Option<bool>, startAfter: Option<int>, maxSeconds: Option<int>,
                         tierTTL: Option<string>)

  datatype Captcha = Captcha(enabled: Option<bool>, siteKey: Option<string>, secretKey: Option<string>,
                             threshold: Option<int>)

  datatype Policy = Policy(minLength: int, maxLength: int, requireUpper: bool, requireLower: bool, requireDigit: bool,
                           requireSymbol: bool, historyCount: int, maxAgeDays: int,
                           accessTTLMinutes: int, refreshTTLHours: int)

  datatype TwoFA = TwoFA(enabled: bool, required: bool, trustedDeviceMaxDays: int)

  datatype App = App(name: string, lockout: Lockout, delay: Delay, captcha: Captcha, policy: Policy, twoFA: TwoFA)

  // ----- posted fields: a checkbox is on or absent, everything else is text -----

  datatype LockoutForm = LockoutForm(overridden: bool, enabled: bool, threshold: string, durations: string,
                                     window: string, tierTTL: string)

  datatype DelayForm = DelayForm(overridden: bool, enabled: bool, startAfter: string, maxSeconds: string,
                                 tierTTL: string)

  datatype CaptchaForm = CaptchaForm(overridden: bool, enabled: bool, siteKey: string, secretKey: string,
                                     threshold: string)

  datatype PolicyForm = PolicyForm(minLength: string, maxLength: string, requireUpper: bool, requireLower: bool,
                                   requireDigit: bool, requireSymbol: bool, historyCount: string, maxAgeDays: string,
                                   accessTTLMinutes: string, refreshTTLHours: string)

  datatype TwoFAForm = TwoFAForm(enabled: bool, required: bool, trustedDeviceMaxDays: string)

  datatype Form = Form(name: string, lockout: LockoutForm, delay: DelayForm, captcha: CaptchaForm, policy: PolicyForm,
                       twoFA: TwoFAForm)

  // ----- rendering -----

  const DEFAULT_DURATIONS := "15m,30m,1h,24h"
  const DEFAULT_SITE_KEY := "6LeIxAcTAAAAAJcZVRqyHh71UMIEGNQ_MXjiZKhI"
  const DEFAULT_SECRET_KEY := "6LeIxAcTAAAAAGG-vFI1TnRWxMZNFuojJ4WifJWe"

  function Shown(stored: Option<int>, otherwise: string): string {
    if stored.Some? then Strconv.Itoa(stored.value) else otherwise
  }

  /** Defaults are pre-filled, and replaced by stored values; the override switch shows whether any is stored. */
  function RenderLockout(l: Lockout): LockoutForm {
    LockoutForm(l != Lockout(None, None, None, None, None), l.enabled.GetOr(true), Shown(l.threshold, "5"),
                l.durations.GetOr(DEFAULT_DURATIONS), l.window.GetOr("15m"), l.tierTTL.GetOr("24h"))
  }

  function RenderDelay(d: Delay): DelayForm {
    DelayForm(d != Delay(None, None, None, None), d.enabled.GetOr(true), Shown(d.startAfter, "2"),
              Shown(d.maxSeconds, "16"),
              d.tierTTL.GetOr("30m"))
  }

  /** The secret is never shown: its field is posted empty. */
  function RenderCaptcha(c: Captcha): CaptchaForm {
    CaptchaForm(c != Captcha(None, None, None, None), c.enabled.GetOr(true), c.siteKey.GetOr(DEFAULT_SITE_KEY), "",
                Shown(c.threshold, "3"))
  }

  function RenderPolicy(p: Policy): PolicyForm {
    PolicyForm(Strconv.Itoa(if p.minLength != 0 then p.minLength else 8),
               Strconv.Itoa(if p.maxLength != 0 then p.maxLength else 128),
               p.requireUpper, p.requireLower, p.requireDigit, p.requireSymbol,
               Strconv.Itoa(p.historyCount), Strconv.Itoa(p.maxAgeDays),
               Strconv.Itoa(p.accessTTLMinutes), Strconv.Itoa(p.refreshTTLHours))
  }

  /** "Require 2FA" is disabled, hence not posted, while 2FA is off. */
  function RenderTwoFA(t: TwoFA): TwoFAForm {
    TwoFAForm(t.enabled, t.enabled && t.required,
              Strconv.Itoa(if t.trustedDeviceMaxDays != 0 then t.trustedDeviceMaxDays else 30))
  }

  function Render(app: App): Form {
    Form(app.name, RenderLockout(app.lockout), RenderDelay(app.delay), RenderCaptcha(app.captcha),
         RenderPolicy(app.policy), RenderTwoFA(app.twoFA))
  }

  // ----- saving -----

  /** A text field is stored trimmed, and as NULL when blank. */
  function Entered(field: string): Option<string> {
    if TrimSpace(field) != "" then Some(TrimSpace(field)) else None
  }

  function SaveLockout(f: LockoutForm): Lockout {
    if f.overridden then
      Lockout(Some(f.enabled), Strconv.Atoi(f.threshold), Entered(f.durations), Entered(f.window), Entered(f.tierTTL))
    else Lockout(None, None, None, None, None)
  }

  function SaveDelay(f: DelayForm): Delay {
    if f.overridden then
      Delay(Some(f.enabled), Strconv.Atoi(f.startAfter), Strconv.Atoi(f.maxSeconds), Entered(f.tierTTL))
    else Delay(None, None, None, None)
  }

  /** The stored secret is overwritten by a posted one and otherwise kept, even when the override is switched off. */
  function SaveCaptcha(stored: Captcha, f: CaptchaForm): Captcha {
    if f.overridden then
      Captcha(Some(f.enabled), Entered(f.siteKey),
              if Entered(f.secretKey).Some? then Entered(f.secretKey) else stored.secretKey,
              Strconv.Atoi(f.threshold))
    else Captcha(None, None, stored.secretKey, None)
  }

  function Positive(field: string, otherwise: int): int {
    var v := Strconv.Atoi(field);
    if v.Some? && v.value > 0 then v.value else otherwise
  }

  function NonNegative(field: string): int {
    var v := Strconv.Atoi(field);
    if v.Some? && v.value >= 0 then v.value else 0
  }

  function SavePolicy(f: PolicyForm): Policy {
    Policy(Positive(f.minLength, 8), Positive(f.maxLength, 128), f.requireUpper, f.requireLower, f.requireDigit,
           f.requireSymbol, NonNegative(f.historyCount), NonNegative(f.maxAgeDays),
           NonNegative(f.accessTTLMinutes), NonNegative(f.refreshTTLHours))
  }

  function SaveTwoFA(f: TwoFAForm): TwoFA {
    TwoFA(f.enabled, f.required, Positive(f.trustedDeviceMaxDays, 30))
  }

  /** Refused, leaving the application as it was, when the name is blank. */
  function Save(stored: App, f: Form): App {
    if TrimSpace(f.name) == "" then stored
    else
      App(TrimSpace(f.name), SaveLockout(f.lockout), SaveDelay(f.delay), SaveCaptcha(stored.captcha, f.captcha),
          SavePolicy(f.policy), SaveTwoFA(f.twoFA))
  }

  // ----- the policy in force -----

  /** time.ParseDuration. */
  type Parser = string -> Option<int>

  const MINUTE: int := 60
  const HOUR: int := 3600

  /** What the library makes of the default texts. */
  ghost predicate ReadsDefaults(parse: Parser) {
    && parse("15m") == Some(15 * MINUTE) && parse("30m") == Some(30 * MINUTE)
    && parse("1h") == Some(HOUR) && parse("24h") == Some(24 * HOUR)
  }

  const DEFAULT_DURATION_LIST: seq<int> := [15 * MINUTE, 30 * MINUTE, HOUR, 24 * HOUR]

  function ParseEach(parse: Parser, parts: seq<string>): seq<int> {
    if parts == [] then []
    else
      var d := if TrimSpace(parts[0]) == "" then None else parse(TrimSpace(parts[0]));
      (if d.Some? then [d.value] else []) + ParseEach(parse, parts[1..])
  }

  function ParseDurations(parse: Parser, s: string): seq<int> {
    ParseEach(parse, Split(s, ','))
  }

  function DurationOr(parse: Parser, stored: Option<string>, otherwise: int): int {
    if stored.Some? then parse(stored.value).GetOr(otherwise) else otherwise
  }

  datatype LockoutRule = LockoutRule(enabled: bool, threshold: int, durations: seq<int>, window: int, tierTTL: int)

  datatype DelayRule = DelayRule(enabled: bool, startAfter: int, maxSeconds: int, tierTTL: int)

  datatype CaptchaRule = CaptchaRule(enabled: bool, siteKey: string, secretKey: string, threshold: int)

  function ResolveLockout(parse: Parser, l: Lockout): LockoutRule {
    var listed := if l.durations.Some? then ParseDurations(parse, l.durations.value) else [];
    LockoutRule(l.enabled.GetOr(true), l.threshold.GetOr(5), if listed != [] then listed else DEFAULT_DURATION_LIST,
                DurationOr(parse, l.window, 15 * MINUTE), DurationOr(parse, l.tierTTL, 24 * HOUR))
  }

  function ResolveDelay(parse: Parser, d: Delay): DelayRule {
    DelayRule(d.enabled.GetOr(true), d.startAfter.GetOr(2), d.maxSeconds.GetOr(16),
              DurationOr(parse, d.tierTTL, 30 * MINUTE))
  }

  function NonEmptyOr(stored: Option<string>, otherwise: string): string {
    if stored.Some? && stored.value != "" then stored.value else otherwise
  }

  function ResolveCaptcha(c: Captcha): CaptchaRule {
    CaptchaRule(c.enabled.GetOr(true), NonEmptyOr(c.siteKey, DEFAULT_SITE_KEY),
                NonEmptyOr(c.secretKey, DEFAULT_SECRET_KEY),
                c.threshold.GetOr(3))
  }

  /** Lengths that are not positive mean 8 and 128; counts and lifetimes that are not positive mean "off". */
  function ResolvePolicy(p: Policy): Policy {
    p.(minLength := if p.minLength <= 0 then 8 else p.minLength,
       maxLength := if p.maxLength <= 0 then 128 else p.maxLength,
       historyCount := if p.historyCount <= 0 then 0 else p.historyCount,
       maxAgeDays := if p.maxAgeDays <= 0 then 0 else p.maxAgeDays,
       accessTTLMinutes := if p.accessTTLMinutes <= 0 then 0 else p.accessTTLMinutes,
       refreshTTLHours := if p.refreshTTLHours <= 0 then 0 else p.refreshTTLHours)
  }

  datatype Rules = Rules(lockout: LockoutRule, delay: DelayRule, captcha: CaptchaRule, policy: Policy)

  function Resolve(parse: Parser, app: App): Rules {
    Rules(ResolveLockout(parse, app.lockout), ResolveDelay(parse, app.delay), ResolveCaptcha(app.captcha),
          ResolvePolicy(app.policy))
  }

  // ----- which applications the forms can store -----

  predicate Int64(n: Option<int>) {
    n.Some? ==> Strconv.INT_MIN <= n.value <= Strconv.INT_MAX
  }

  predicate CleanText(s: Option<string>) {
    s.Some? ==> s.value != "" && Trimmed(s.value)
  }

  predicate InRange(app: App) {
    && Int64(app.lockout.threshold) && Int64(app.delay.startAfter) && Int64(app.delay.maxSeconds)
    && Int64(app.captcha.threshold)
    && Int64(Some(app.policy.minLength)) && Int64(Some(app.policy.maxLength)) && Int64(Some(app.policy.historyCount))
    && Int64(Some(app.policy.maxAgeDays)) && Int64(Some(app.policy.accessTTLMinutes))
    && Int64(Some(app.policy.refreshTTLHours)) && Int64(Some(app.twoFA.trustedDeviceMaxDays))
  }

  predicate Clean(app: App) {
    && InRange(app)
    && CleanText(app.lockout.durations) && CleanText(app.lockout.window) && CleanText(app.lockout.tierTTL)
    && CleanText(app.delay.tierTTL) && CleanText(app.captcha.siteKey)
  }

  lemma TextIsClean(field: string)
    ensures CleanText(Entered(field))
  {
    TrimSpaceTrims(field);
  }

  /** Whatever is typed into the form, what is stored is clean. */
  lemma SavedIsClean(stored: App, f: Form)
    requires Clean(stored)
    ensures Clean(Save(stored, f))
  {
    SavedIsInRange(stored, f);
    hide TrimSpace, CleanText, InRange, SavePolicy, SaveTwoFA;
    NoneIsClean();
    TextIsClean(f.lockout.durations);
    TextIsClean(f.lockout.window);
    TextIsClean(f.lockout.tierTTL);
    TextIsClean(f.delay.tierTTL);
    TextIsClean(f.captcha.siteKey);
    hide Entered;
  }

  lemma SavedIsInRange(stored: App, f: Form)
    requires InRange(stored)
    ensures InRange(Save(stored, f))
  {
    forall s ensures Int64(Strconv.Atoi(s)) { AtoiInRange(s); }
    hide TrimSpace, Entered, Strconv.Atoi, Strconv.Digits;
  }

  lemma AtoiInRange(s: string)
    ensures Int64(Strconv.Atoi(s))
  {
  }

  lemma NoneIsClean()
    ensures CleanText(None)
  {
  }

  // ----- saving an untouched form -----

  lemma ShownReads(stored: Option<int>, otherwise: string)
    requires Int64(stored)
    ensures Strconv.Atoi(Shown(stored, otherwise)) == if stored.Some? then stored else Strconv.Atoi(otherwise)
  {
    if stored.Some? { Strconv.AtoiItoa(stored.value); }
  }

  /** The numbers the form pre-fills. */
  lemma DefaultNumbers()
    ensures Strconv.Atoi("5") == Some(5) && Strconv.Atoi("2") == Some(2)
    ensures Strconv.Atoi("16") == Some(16) && Strconv.Atoi("3") == Some(3)
  {
    OneDigit("5");
    OneDigit("2");
    OneDigit("3");
    OneDigit("1");
    assert "16"[..1] == "1" && Strconv.IsDigit("16"[0]) && Strconv.IsDigit("16"[1]);
    assert Strconv.Digits("16") == 16;
  }

  lemma OneDigit(s: string)
    requires |s| == 1 && Strconv.IsDigit(s[0])
    ensures Strconv.Digits(s) == s[0] as int - '0' as int && Strconv.Atoi(s) == Some(s[0] as int - '0' as int)
  {
    assert s[..0] == "";
  }

  lemma ShownText(stored: Option<string>, otherwise: string)
    requires CleanText(stored) && otherwise != "" && Trimmed(otherwise)
    ensures Entered(stored.GetOr(otherwise)) == Some(stored.GetOr(otherwise))
  {
    TrimSpaceTrims(stored.GetOr(otherwise));
  }

  lemma DefaultParts()
    ensures Split(DEFAULT_DURATIONS, ',') == ["15m", "30m", "1h", "24h"]
  {
    var items := ["15m", "30m", "1h", "24h"];
    assert Join(items[3..], ',') == "24h";
    assert Join(items[2..], ',') == "1h,24h" by { assert items[2..][1..] == items[3..]; }
    assert Join(items[1..], ',') == "30m,1h,24h" by { assert items[1..][1..] == items[2..]; }
    assert Join(items, ',') == DEFAULT_DURATIONS;
    hide Split;
    SplitJoin(items, ',');
  }

  lemma ParseOne(parse: Parser, parts: seq<string>, d: int)
    requires parts != [] && parts[0] != "" && Trimmed(parts[0]) && parse(parts[0]) == Some(d)
    ensures ParseEach(parse, parts) == [d] + ParseEach(parse, parts[1..])
  {
    TrimSpaceTrims(parts[0]);
  }

  lemma DefaultDurations(parse: Parser)
    requires ReadsDefaults(parse)
    ensures ParseDurations(parse, DEFAULT_DURATIONS) == DEFAULT_DURATION_LIST
  {
    DefaultParts();
    hide Split, ParseEach;
    var items := ["15m", "30m", "1h", "24h"];
    ParseOne(parse, items, 15 * MINUTE);
    ParseOne(parse, items[1..], 30 * MINUTE);
    ParseOne(parse, items[1..][1..], HOUR);
    ParseOne(parse, items[1..][1..][1..], 24 * HOUR);
    ParseNone(parse);
    assert items[1..][1..][1..][1..] == [];
  }

  lemma ParseNone(parse: Parser)
    ensures ParseEach(parse, []) == []
  {
  }

  lemma LockoutUnchanged(parse: Parser, l: Lockout)
    requires ReadsDefaults(parse) && Int64(l.threshold)
    requires CleanText(l.durations) && CleanText(l.window) && CleanText(l.tierTTL)
    ensures var l' := SaveLockout(RenderLockout(l));
            ResolveLockout(parse, l') == ResolveLockout(parse, l) && SaveLockout(RenderLockout(l')) == l'
  {
    hide TrimSpace, Trimmed, Strconv.Atoi, Strconv.Itoa, ParseDurations;
    ShownReads(l.threshold, "5");
    DefaultNumbers();
    DefaultsAreTrimmed();
    ShownText(l.durations, DEFAULT_DURATIONS);
    ShownText(l.window, "15m");
    ShownText(l.tierTTL, "24h");
    DefaultDurations(parse);
    var l' := SaveLockout(RenderLockout(l));
    if l != Lockout(None, None, None, None, None) {
      ShownReads(l'.threshold, "5");
    }
  }

  lemma DefaultsAreTrimmed()
    ensures Trimmed(DEFAULT_DURATIONS) && Trimmed("15m") && Trimmed("24h") && Trimmed("30m")
            && Trimmed(DEFAULT_SITE_KEY)
    ensures DEFAULT_DURATIONS != "" && DEFAULT_SITE_KEY != ""
  {
  }

  lemma DelayUnchanged(parse: Parser, d: Delay)
    requires ReadsDefaults(parse) && Int64(d.startAfter) && Int64(d.maxSeconds) && CleanText(d.tierTTL)
    ensures var d' := SaveDelay(RenderDelay(d));
            ResolveDelay(parse, d') == ResolveDelay(parse, d) && SaveDelay(RenderDelay(d')) == d'
  {
    hide TrimSpace, Trimmed, Strconv.Atoi, Strconv.Itoa;
    ShownReads(d.startAfter, "2");
    ShownReads(d.maxSeconds, "16");
    DefaultNumbers();
    DefaultsAreTrimmed();
    ShownText(d.tierTTL, "30m");
    var d' := SaveDelay(RenderDelay(d));
    if d != Delay(None, None, None, None) {
      ShownReads(d'.startAfter, "2");
      ShownReads(d'.maxSeconds, "16");
    }
  }

  /** The secret key included: an untouched form neither shows nor changes it. */
  lemma CaptchaUnchanged(c: Captcha)
    requires Int64(c.threshold) && CleanText(c.siteKey)
    ensures var c' := SaveCaptcha(c, RenderCaptcha(c));
            ResolveCaptcha(c') == ResolveCaptcha(c) && SaveCaptcha(c', RenderCaptcha(c')) == c'
  {
    TrimSpaceTrims("");
    assert TrimSpace("") == "";
    hide Trimmed, TrimSpace, Strconv.Atoi, Strconv.Itoa;
    ShownReads(c.threshold, "3");
    DefaultNumbers();
    DefaultsAreTrimmed();
    ShownText(c.siteKey, DEFAULT_SITE_KEY);
    var c' := SaveCaptcha(c, RenderCaptcha(c));
    if c != Captcha(None, None, None, None) {
      ShownReads(c'.threshold, "3");
    }
  }

  lemma NumberReads(n: int)
    requires Int64(Some(n))
    ensures forall otherwise :: Positive(Strconv.Itoa(n), otherwise) == if n > 0 then n else otherwise
    ensures NonNegative(Strconv.Itoa(n)) == if n >= 0 then n else 0
  {
    Strconv.AtoiItoa(n);
  }

  lemma PolicyUnchanged(p: Policy)
    requires Int64(Some(p.minLength)) && Int64(Some(p.maxLength)) && Int64(Some(p.historyCount))
    requires Int64(Some(p.maxAgeDays)) && Int64(Some(p.accessTTLMinutes)) && Int64(Some(p.refreshTTLHours))
    ensures SavePolicy(RenderPolicy(p)) == ResolvePolicy(p)
    ensures ResolvePolicy(SavePolicy(RenderPolicy(p))) == ResolvePolicy(p)
    ensures SavePolicy(RenderPolicy(SavePolicy(RenderPolicy(p)))) == SavePolicy(RenderPolicy(p))
  {
    hide Positive, NonNegative, Strconv.Itoa;
    PolicySaves(p);
    PolicySaves(ResolvePolicy(p));
  }

  lemma PolicySaves(p: Policy)
    requires Int64(Some(p.minLength)) && Int64(Some(p.maxLength)) && Int64(Some(p.historyCount))
    requires Int64(Some(p.maxAgeDays)) && Int64(Some(p.accessTTLMinutes)) && Int64(Some(p.refreshTTLHours))
    ensures SavePolicy(RenderPolicy(p)) == ResolvePolicy(p)
  {
    hide Positive, NonNegative, Strconv.Itoa;
    NumberReads(if p.minLength != 0 then p.minLength else 8);
    NumberReads(if p.maxLength != 0 then p.maxLength else 128);
    NumberReads(p.historyCount);
    NumberReads(p.maxAgeDays);
    NumberReads(p.accessTTLMinutes);
    NumberReads(p.refreshTTLHours);
  }

  lemma TwoFASaves(t: TwoFA)
    requires Int64(Some(t.trustedDeviceMaxDays))
    ensures SaveTwoFA(RenderTwoFA(t))
            == TwoFA(t.enabled, t.enabled && t.required,
                     if t.trustedDeviceMaxDays > 0 then t.trustedDeviceMaxDays else 30)
  {
    NumberReads(if t.trustedDeviceMaxDays != 0 then t.trustedDeviceMaxDays else 30);
  }

  /** Opening an application and saving it untouched changes no rule in force, and saving it once more changes no
      stored field. */
  lemma EditThenSaveIsNoOp(parse: Parser, app: App)
    requires ReadsDefaults(parse) && Clean(app)
    ensures Resolve(parse, Save(app, Render(app))) == Resolve(parse, app)
    ensures var saved := Save(app, Render(app)); Save(saved, Render(saved)) == saved
  {
    var saved := Save(app, Render(app));
    TrimSpaceTrims(app.name);
    if TrimSpace(app.name) != "" {
      TrimSpaceTrims(TrimSpace(app.name));
      LockoutUnchanged(parse, app.lockout);
      DelayUnchanged(parse, app.delay);
      CaptchaUnchanged(app.captcha);
      PolicyUnchanged(app.policy);
      TwoFASaves(app.twoFA);
      TwoFASaves(saved.twoFA);
    }
    hide TrimSpace, RenderLockout, RenderDelay, RenderCaptcha, RenderPolicy, RenderTwoFA;
    hide SaveLockout, SaveDelay, SaveCaptcha, SavePolicy, SaveTwoFA;
    hide ResolveLockout, ResolveDelay, ResolveCaptcha, ResolvePolicy;
  }

  /** The two-factor requirement survives an untouched save exactly when two-factor is on or not required. */
  lemma RequirementSurvivesIff(app: App)
    requires Clean(app) && TrimSpace(app.name) != ""
    ensures Save(app, Render(app)).twoFA.required == app.twoFA.required <==> (app.twoFA.required ==> app.twoFA.enabled)
  {
    TwoFASaves(app.twoFA);
  }

  // ----- switching an override off -----

  /** Switching the lockout or delay override off clears it.  The CAPTCHA override comes back on the next page
      exactly when a secret key is stored, since that column is not cleared. */
  lemma OverrideOffSticksIff(app: App, f: Form)
    requires TrimSpace(f.name) != ""
    requires !f.lockout.overridden && !f.delay.overridden && !f.captcha.overridden
    ensures var page := Render(Save(app, f));
            && !page.lockout.overridden && !page.delay.overridden
            && (page.captcha.overridden <==> app.captcha.secretKey.Some?)
  {
  }

  // ----- what is typed takes effect -----

  /** The number typed, or the default where the text is no number. */
  ghost function NumberTyped(text: string, otherwise: int): int {
    if Strconv.Atoi(text).Some? then Strconv.Atoi(text).value else otherwise
  }

  /** The duration typed, or the default where the text is blank or no duration. */
  ghost function DurationTyped(parse: Parser, text: string, otherwise: int): int {
    if TrimSpace(text) == "" || parse(TrimSpace(text)).None? then otherwise else parse(TrimSpace(text)).value
  }

  ghost function Parsed(parse: Parser, items: seq<string>): seq<int> {
    if items == [] then []
    else Parsed(parse, items[..|items| - 1])
         + if parse(items[|items| - 1]).Some? then [parse(items[|items| - 1]).value] else []
  }

  lemma {:induction false} ParseEachIsParsed(parse: Parser, parts: seq<string>)
    ensures ParseEach(parse, parts) == Parsed(parse, KeepNonEmpty(parts))
  {
    if parts != [] {
      var init, last := parts[..|parts| - 1], parts[|parts| - 1];
      ParseEachIsParsed(parse, init);
      assert parts == init + [last];
      ParseEachLast(parse, init, last);
      KeepLast(init, last);
      ParsedLast(parse, KeepNonEmpty(init), TrimSpace(last));
      hide ParseEach, Parsed, KeepNonEmpty, TrimSpace;
    }
  }

  lemma ParsedLast(parse: Parser, init: seq<string>, last: string)
    ensures Parsed(parse, init + [last])
            == Parsed(parse, init) + if parse(last).Some? then [parse(last).value] else []
    ensures init + [] == init
  {
    assert (init + [last])[..|init|] == init;
  }

  lemma {:induction false} ParseEachLast(parse: Parser, init: seq<string>, last: string)
    ensures ParseEach(parse, init + [last])
            == ParseEach(parse, init)
               + if TrimSpace(last) != "" && parse(TrimSpace(last)).Some? then [parse(TrimSpace(last)).value] else []
  {
    if init == [] {
      assert init + [last] == [last] && [last][1..] == [];
    } else {
      assert (init + [last])[0] == init[0] && (init + [last])[1..] == init[1..] + [last];
      ParseEachLast(parse, init[1..], last);
    }
  }

  /** The durations in force are those typed that parse, in order; blanks and entries that do not parse are skipped. */
  lemma DurationsOfTyped(parse: Parser, entries: seq<Padded>)
    requires forall x :: x in entries ==> x.Valid()
    ensures ParseDurations(parse, Join(Texts(entries), ',')) == Parsed(parse, Items(entries))
  {
    ScopesOfTyped(entries);
    ScopesAreKept(Join(Texts(entries), ','));
    ParseEachIsParsed(parse, Split(Join(Texts(entries), ','), ','));
  }

  /** The lockout and delay typed under their override are in force; without it the defaults are. */
  lemma TypedLockoutTakesEffect(parse: Parser, app: App, f: Form)
    requires TrimSpace(f.name) != ""
    ensures var rule := Resolve(parse, Save(app, f)).lockout;
            if !f.lockout.overridden then rule == LockoutRule(true, 5, [900, 1800, 3600, 86400], 900, 86400)
            else
              && rule.enabled == f.lockout.enabled && rule.threshold == NumberTyped(f.lockout.threshold, 5)
              && rule.window == DurationTyped(parse, f.lockout.window, 900)
              && rule.tierTTL == DurationTyped(parse, f.lockout.tierTTL, 86400)
              && var listed := ParseDurations(parse, TrimSpace(f.lockout.durations));
                 rule.durations == if TrimSpace(f.lockout.durations) == "" || listed == [] then [900, 1800, 3600, 86400]
                                   else listed
    ensures var rule := Resolve(parse, Save(app, f)).delay;
            if !f.delay.overridden then rule == DelayRule(true, 2, 16, 1800)
            else rule == DelayRule(f.delay.enabled, NumberTyped(f.delay.startAfter, 2),
                                   NumberTyped(f.delay.maxSeconds, 16), DurationTyped(parse, f.delay.tierTTL, 1800))
  {
    hide TrimSpace, ParseDurations;
  }

  /** A typed secret key replaces the stored one, which otherwise stays; the rest of the CAPTCHA policy is as typed
      under its override and the default without it. */
  lemma TypedCaptchaTakesEffect(parse: Parser, app: App, f: Form)
    requires TrimSpace(f.name) != ""
    ensures var saved := Save(app, f).captcha;
            saved.secretKey == if f.captcha.overridden && TrimSpace(f.captcha.secretKey) != ""
                               then Some(TrimSpace(f.captcha.secretKey)) else app.captcha.secretKey
    ensures var rule := Resolve(parse, Save(app, f)).captcha;
            if !f.captcha.overridden then rule.enabled && rule.threshold == 3 && rule.siteKey == DEFAULT_SITE_KEY
            else
              && rule.enabled == f.captcha.enabled && rule.threshold == NumberTyped(f.captcha.threshold, 3)
              && rule.siteKey == (if TrimSpace(f.captcha.siteKey) == "" then DEFAULT_SITE_KEY
                                  else TrimSpace(f.captcha.siteKey))
              && (TrimSpace(f.captcha.secretKey) != "" ==> rule.secretKey == TrimSpace(f.captcha.secretKey))
    ensures !f.captcha.overridden || TrimSpace(f.captcha.secretKey) == "" ==>
              Resolve(parse, Save(app, f)).captcha.secretKey
              == if app.captcha.secretKey.GetOr("") == "" then DEFAULT_SECRET_KEY else app.captcha.secretKey.value
  {
    hide TrimSpace;
  }

  /** The password policy, lifetimes, two-factor switches and name are as typed: lengths and days that are no positive
      number give the default, counts and lifetimes that are no number, or negative, mean off. */
  lemma TypedPolicyTakesEffect(parse: Parser, app: App, f: Form)
    requires TrimSpace(f.name) != ""
    ensures Save(app, f).name == TrimSpace(f.name)
    ensures var p := Resolve(parse, Save(app, f)).policy;
            && p.minLength == (if NumberTyped(f.policy.minLength, 0) > 0 then NumberTyped(f.policy.minLength, 0) else 8)
            && p.maxLength == (if NumberTyped(f.policy.maxLength, 0) > 0 then NumberTyped(f.policy.maxLength, 0)
                               else 128)
            && p.requireUpper == f.policy.requireUpper && p.requireLower == f.policy.requireLower
            && p.requireDigit == f.policy.requireDigit && p.requireSymbol == f.policy.requireSymbol
            && p.historyCount == Max0(NumberTyped(f.policy.historyCount, 0))
            && p.maxAgeDays == Max0(NumberTyped(f.policy.maxAgeDays, 0))
            && p.accessTTLMinutes == Max0(NumberTyped(f.policy.accessTTLMinutes, 0))
            && p.refreshTTLHours == Max0(NumberTyped(f.policy.refreshTTLHours, 0))
    ensures var t := Save(app, f).twoFA;
            && t.enabled == f.twoFA.enabled && t.required == f.twoFA.required
            && t.trustedDeviceMaxDays == if NumberTyped(f.twoFA.trustedDeviceMaxDays, 0) > 0
                                         then NumberTyped(f.twoFA.trustedDeviceMaxDays, 0) else 30
  {
    hide TrimSpace, Strconv.Atoi;
  }

  ghost function Max0(n: int): nat {
    if n < 0 then 0 else n
  }

  /** A form without a name changes nothing. */
  lemma NamelessFormIsRefused(app: App, f: Form)
    requires TrimSpace(f.name) == ""
    ensures Save(app, f) == app
  {
  }
}
