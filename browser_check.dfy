/** Browser classification and the compatibility decision
    (src/core/compatibility/browserCheck.ts). The user-agent string and the
    results of the feature probes on `window`, `navigator` and `localStorage`
    are parameters. */
module BrowserCheck {
  import opened Wrappers

  // ---------------------------------------------------------------------------
  // Searching text

  /** `t` occurs in `s` starting at index `j`. */
  predicate MatchAt(s: string, t: string, j: int)
  {
    0 <= j && j + |t| <= |s| && s[j..j + |t|] == t
  }

  /** The first index at or after `k` where `t` occurs in `s`, or -1. */
  function IndexFrom(s: string, t: string, k: nat): (r: int)
    requires k <= |s|
    decreases |s| - k
    ensures r == -1 || (k <= r && MatchAt(s, t, r))
    ensures r == -1 <==> forall j :: k <= j <= |s| ==> !MatchAt(s, t, j)
    ensures r != -1 ==> forall j :: k <= j < r ==> !MatchAt(s, t, j)
  {
    if MatchAt(s, t, k) then k
    else if k == |s| then -1
    else IndexFrom(s, t, k + 1)
  }

  /** `s.indexOf(t)`. */
  function IndexOf(s: string, t: string): int
  {
    IndexFrom(s, t, 0)
  }

  /** `s.indexOf(t) > -1`: `t` occurs somewhere in `s`. */
  predicate Contains(s: string, t: string)
  {
    IndexOf(s, t) > -1
  }

  lemma ContainsMeans(s: string, t: string)
    ensures Contains(s, t) <==> exists j :: MatchAt(s, t, j)
  {
    if !Contains(s, t) {
      forall j
        ensures !MatchAt(s, t, j)
      {
        if 0 <= j <= |s| {
          assert !MatchAt(s, t, j);
        }
      }
    }
  }

  /** The case mapping of a regular expression with the `i` flag, restricted to
      what can meet an ASCII pattern: only ASCII letters change, and no other
      character maps onto an ASCII one. */
  function Lower(c: char): char
  {
    if 'A' <= c <= 'Z' then (c as int - 'A' as int + 'a' as int) as char else c
  }

  function LowerAll(s: string): (r: string)
    ensures |r| == |s|
    ensures forall i :: 0 <= i < |s| ==> r[i] == Lower(s[i])
  {
    seq(|s|, i requires 0 <= i < |s| => Lower(s[i]))
  }

  /** The test `/t/i.test(s)`. */
  predicate ContainsIgnoringCase(s: string, t: string)
  {
    Contains(LowerAll(s), LowerAll(t))
  }

  /** Case-insensitive matching cannot tell a string from its lower-case form. */
  lemma IgnoringCaseOfLower(s: string, t: string)
    ensures ContainsIgnoringCase(LowerAll(s), t) == ContainsIgnoringCase(s, t)
  {
    assert LowerAll(LowerAll(s)) == LowerAll(s);
  }

  // ---------------------------------------------------------------------------
  // Version numbers

  predicate IsDigit(c: char)
  {
    '0' <= c <= '9'
  }

  /** The longest run of digits at the start of `s` (`\d+` is greedy). */
  function DigitRun(s: string): (r: string)
    ensures |r| <= |s| && r == s[..|r|]
    ensures forall i :: 0 <= i < |r| ==> IsDigit(r[i])
    ensures |r| == |s| || !IsDigit(s[|r|])
  {
    if s == [] || !IsDigit(s[0]) then []
    else
      var rest := DigitRun(s[1..]);
      assert ([s[0]] + rest)[1..] == rest;
      [s[0]] + rest
  }

  /** `token` followed by at least one digit starts at index `j` of `s`. */
  predicate VersionAt(s: string, token: string, j: int)
  {
    MatchAt(s, token, j) && j + |token| < |s| && IsDigit(s[j + |token|])
  }

  /** The first match of `token(\d+)` at or after index `k`: the digit run that
      follows the leftmost occurrence of `token` that a digit follows. */
  function VersionFrom(s: string, token: string, k: nat): (r: Option<string>)
    requires k <= |s|
    decreases |s| - k
    ensures r.None? <==> forall j :: k <= j <= |s| ==> !VersionAt(s, token, j)
    ensures r.Some? ==> exists j :: k <= j < |s| && VersionAt(s, token, j)
                                    && r.value == DigitRun(s[j + |token|..])
                                    && forall i :: k <= i < j ==> !VersionAt(s, token, i)
  {
    if VersionAt(s, token, k) then Some(DigitRun(s[k + |token|..]))
    else if k == |s| then None
    else VersionFrom(s, token, k + 1)
  }

  /** `match ? match[1] : 'Unknown'` for `ua.match(/token(\d+)/)`. */
  function VersionOf(ua: string, token: string): (version: string)
    ensures version == "Unknown" || (|version| >= 1 && forall i :: 0 <= i < |version| ==> IsDigit(version[i]))
  {
    var m := VersionFrom(ua, token, 0);
    if m.Some? then
      assert |m.value| >= 1 by {
        var j :| 0 <= j < |ua| && VersionAt(ua, token, j) && m.value == DigitRun(ua[j + |token|..]);
        assert ua[j + |token|..][0] == ua[j + |token|];
      }
      m.value
    else "Unknown"
  }

  // ---------------------------------------------------------------------------
  // Browser detection

  datatype BrowserInfo = BrowserInfo(name: string, version: string, isMobile: bool, isIOS: bool, isAndroid: bool)

  predicate IsIOS(ua: string)
  {
    ContainsIgnoringCase(ua, "iPhone") || ContainsIgnoringCase(ua, "iPad") || ContainsIgnoringCase(ua, "iPod")
  }

  predicate IsAndroid(ua: string)
  {
    ContainsIgnoringCase(ua, "Android")
  }

  /** `/iPhone|iPad|iPod|Android/i`: any of the four, in any letter case. */
  predicate IsMobile(ua: string)
  {
    ContainsIgnoringCase(ua, "iPhone") || ContainsIgnoringCase(ua, "iPad")
    || ContainsIgnoringCase(ua, "iPod") || ContainsIgnoringCase(ua, "Android")
  }

  /** `detectBrowser`: the first of Firefox, Edge (token `Edg`), Chrome and
      Safari whose token occurs in the user agent names the browser, and the
      version is the number after that token (after `Version/` for Safari);
      both are "Unknown" when no token occurs. */
  function DetectBrowser(ua: string): (b: BrowserInfo)
    ensures b.name == "Firefox" <==> Contains(ua, "Firefox")
    ensures b.name == "Edge" <==> !Contains(ua, "Firefox") && Contains(ua, "Edg")
    ensures b.name == "Chrome" <==> !Contains(ua, "Firefox") && !Contains(ua, "Edg") && Contains(ua, "Chrome")
    ensures b.name == "Safari" <==>
              !Contains(ua, "Firefox") && !Contains(ua, "Edg") && !Contains(ua, "Chrome") && Contains(ua, "Safari")
    ensures b.name == "Unknown" <==>
              !Contains(ua, "Firefox") && !Contains(ua, "Edg") && !Contains(ua, "Chrome") && !Contains(ua, "Safari")
    ensures b.name == "Firefox" ==> b.version == VersionOf(ua, "Firefox/")
    ensures b.name == "Edge" ==> b.version == VersionOf(ua, "Edg/")
    ensures b.name == "Chrome" ==> b.version == VersionOf(ua, "Chrome/")
    ensures b.name == "Safari" ==> b.version == VersionOf(ua, "Version/")
    ensures b.name == "Unknown" ==> b.version == "Unknown"
    ensures b.isIOS == IsIOS(ua) && b.isAndroid == IsAndroid(ua)
    ensures b.isMobile <==> b.isIOS || b.isAndroid
  {
    var name :=
      if Contains(ua, "Firefox") then "Firefox"
      else if Contains(ua, "Edg") then "Edge"
      else if Contains(ua, "Chrome") then "Chrome"
      else if Contains(ua, "Safari") then "Safari"
      else "Unknown";
    var version :=
      if name == "Firefox" then VersionOf(ua, "Firefox/")
      else if name == "Edge" then VersionOf(ua, "Edg/")
      else if name == "Chrome" then VersionOf(ua, "Chrome/")
      else if name == "Safari" then VersionOf(ua, "Version/")
      else "Unknown";
    BrowserInfo(name, version, IsMobile(ua), IsIOS(ua), IsAndroid(ua))
  }

  /** A user agent naming both Edge and Chrome, as Edge's does, is Edge. */
  lemma EdgeBeforeChrome(ua: string)
    requires Contains(ua, "Edg") && Contains(ua, "Chrome") && !Contains(ua, "Firefox")
    ensures DetectBrowser(ua).name == "Edge"
  {
  }

  /** The device flags do not depend on letter case. */
  lemma DeviceFlagsIgnoreCase(ua: string)
    ensures DetectBrowser(LowerAll(ua)).isMobile == DetectBrowser(ua).isMobile
    ensures DetectBrowser(LowerAll(ua)).isIOS == DetectBrowser(ua).isIOS
    ensures DetectBrowser(LowerAll(ua)).isAndroid == DetectBrowser(ua).isAndroid
  {
    IgnoringCaseOfLower(ua, "iPhone");
    IgnoringCaseOfLower(ua, "iPad");
    IgnoringCaseOfLower(ua, "iPod");
    IgnoringCaseOfLower(ua, "Android");
  }

  // ---------------------------------------------------------------------------
  // The compatibility decision

  /** `hasPWASupport`: a service worker and an install prompt event. */
  function HasPWASupport(serviceWorker: bool, beforeInstallPrompt: bool): (pwa: bool)
    ensures pwa ==> serviceWorker
  {
    serviceWorker && beforeInstallPrompt
  }

  datatype Features = Features(indexedDB: bool, serviceWorker: bool, notifications: bool,
                               localStorage: bool, pwa: bool)

  /** The warnings the check can raise, each with the text shown to the user. */
  datatype Warning = NoStorage | IosNotifications | PrivateBrowsing | NoServiceWorker
  {
    function Message(): string
    {
      match this
      case NoStorage => "No storage available. App may not function correctly."
      case IosNotifications =>
        "Notifications are not available in Safari on iOS. Add the app to your home screen for notification support."
      case PrivateBrowsing => "You may be in private browsing mode. Some features may be limited."
      case NoServiceWorker => "Service Worker not supported. Offline mode unavailable."
    }

    /** Where the warning stands in the order the check raises them. */
    function Rank(): int
    {
      match this
      case NoStorage => 0
      case IosNotifications => 1
      case PrivateBrowsing => 2
      case NoServiceWorker => 3
    }
  }

  /** Each warning comes before the ones ranked after it. */
  predicate InRaisingOrder(ws: seq<Warning>)
  {
    forall i :: 0 <= i < |ws| - 1 ==> ws[i].Rank() < ws[i + 1].Rank()
  }

  /** Raising a warning ranked after the last one raised keeps the order. */
  lemma RaiseInOrder(ws: seq<Warning>, w: Warning)
    requires InRaisingOrder(ws)
    requires forall v :: v in ws ==> v.Rank() < w.Rank()
    ensures InRaisingOrder(ws + [w])
  {
    var r := ws + [w];
    if ws != [] {
      assert ws[|ws| - 1] in ws;
    }
    forall i | 0 <= i < |r| - 1
      ensures r[i].Rank() < r[i + 1].Rank()
    {
      if i < |ws| - 1 {
        assert r[i] == ws[i] && r[i + 1] == ws[i + 1];
      }
    }
  }

  datatype CompatibilityCheck = CompatibilityCheck(isCompatible: bool, features: Features,
                                                   warnings: seq<Warning>, browser: BrowserInfo)

  /** The warning part of `checkCompatibility`: the warnings pushed, in their
      fixed order, for the probed features on a device that is or is not iOS.
      Storage works through IndexedDB or localStorage; without IndexedDB but with
      localStorage the browser is probably in private mode; iOS Safari has no
      notifications; offline use needs a service worker. */
  method RaiseWarnings(isIOS: bool, features: Features) returns (warnings: seq<Warning>)
    ensures NoStorage in warnings <==> !features.indexedDB && !features.localStorage
    ensures IosNotifications in warnings <==> isIOS && !features.notifications
    ensures PrivateBrowsing in warnings <==> !features.indexedDB && features.localStorage
    ensures NoServiceWorker in warnings <==> !features.serviceWorker
    ensures InRaisingOrder(warnings)
  {
    warnings := [];
    if !features.indexedDB && !features.localStorage {
      RaiseInOrder(warnings, NoStorage);
      warnings := warnings + [NoStorage];
    }
    assert NoStorage in warnings <==> !features.indexedDB && !features.localStorage;
    assert IosNotifications !in warnings && PrivateBrowsing !in warnings && NoServiceWorker !in warnings;
    if isIOS {
      if !features.notifications {
        RaiseInOrder(warnings, IosNotifications);
        warnings := warnings + [IosNotifications];
      }
    }
    assert NoStorage in warnings <==> !features.indexedDB && !features.localStorage;
    assert IosNotifications in warnings <==> isIOS && !features.notifications;
    assert PrivateBrowsing !in warnings && NoServiceWorker !in warnings;
    if !features.indexedDB && features.localStorage {
      RaiseInOrder(warnings, PrivateBrowsing);
      warnings := warnings + [PrivateBrowsing];
    }
    assert NoStorage in warnings <==> !features.indexedDB && !features.localStorage;
    assert IosNotifications in warnings <==> isIOS && !features.notifications;
    assert PrivateBrowsing in warnings <==> !features.indexedDB && features.localStorage;
    assert NoServiceWorker !in warnings;
    if !features.serviceWorker {
      RaiseInOrder(warnings, NoServiceWorker);
      warnings := warnings + [NoServiceWorker];
    }
  }

  /** `checkCompatibility`: the browser detected, the features probed, the
      warnings raised for them and the verdict, which needs some storage and a
      service worker. */
  method CheckCompatibility(ua: string, indexedDB: bool, serviceWorker: bool, notifications: bool,
                            localStorage: bool, beforeInstallPrompt: bool)
    returns (r: CompatibilityCheck)
    ensures r.browser == DetectBrowser(ua)
    ensures r.features == Features(indexedDB, serviceWorker, notifications, localStorage,
                                   HasPWASupport(serviceWorker, beforeInstallPrompt))
    ensures r.isCompatible <==> (indexedDB || localStorage) && serviceWorker
    ensures NoStorage in r.warnings <==> !indexedDB && !localStorage
    ensures IosNotifications in r.warnings <==> r.browser.isIOS && !notifications
    ensures PrivateBrowsing in r.warnings <==> !indexedDB && localStorage
    ensures NoServiceWorker in r.warnings <==> !serviceWorker
    ensures InRaisingOrder(r.warnings)
    // the two storage warnings never come together, and a compatible browser
    // is one that raised neither the storage nor the service-worker warning
    ensures !(NoStorage in r.warnings && PrivateBrowsing in r.warnings)
    ensures r.isCompatible <==> NoStorage !in r.warnings && NoServiceWorker !in r.warnings
  {
    var browser := DetectBrowser(ua);
    var features := Features(indexedDB, serviceWorker, notifications, localStorage,
                             HasPWASupport(serviceWorker, beforeInstallPrompt));
    var warnings := RaiseWarnings(browser.isIOS, features);
    var isCompatible := (features.indexedDB || features.localStorage) && features.serviceWorker;
    r := CompatibilityCheck(isCompatible, features, warnings, browser);
  }
}
