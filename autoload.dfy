/**
 * The class autoloader registered by public/index.php (lines 15-43): a class
 * under the `App\` namespace is loaded from the file named after the rest of
 * the class name below the application directory.
 */
module Autoload {
  import opened Wrappers
  import opened Strings

  /** The namespace prefix the autoloader serves. */
  const AppPrefix: string := "App\\"

  /** `__DIR__ . DS . '..' . DS . 'app' . DS` for the public directory `publicDir`. */
  function BaseDir(publicDir: string, sep: char): string
  {
    publicDir + [sep] + ".." + [sep] + "app" + [sep]
  }

  predicate HasAppPrefix(cls: string)
  {
    |cls| >= |AppPrefix| && cls[..|AppPrefix|] == AppPrefix
  }

  /**
   * The file the autoloader would `require` for class `cls`: none when the
   * class is outside `App\`, otherwise the base directory, the rest of the name
   * with each namespace separator turned into `sep`, and ".php".
   */
  function AutoloadPath(cls: string, publicDir: string, sep: char): (file: Option<string>)
    ensures file.Some? <==> HasAppPrefix(cls)
  {
    if !HasAppPrefix(cls) then None
    else Some(BaseDir(publicDir, sep) + ReplaceChar(cls[|AppPrefix|..], '\\', sep) + ".php")
  }

  /**
   * A mapped path is the base directory, then the class name without its
   * prefix with every backslash turned into `sep` (so, for a separator other
   * than a backslash, no backslash is left), then ".php".
   */
  lemma AutoloadPathShape(cls: string, publicDir: string, sep: char)
    requires HasAppPrefix(cls)
    ensures var base := BaseDir(publicDir, sep);
            var file := AutoloadPath(cls, publicDir, sep).value;
            |file| == |base| + |cls| - |AppPrefix| + 4
            && file[..|base|] == base
            && file[|file| - 4..] == ".php"
            && file[|base|..|file| - 4] == ReplaceChar(cls[|AppPrefix|..], '\\', sep)
            && (sep != '\\' ==> '\\' !in file[|base|..|file| - 4])
  {
    var base := BaseDir(publicDir, sep);
    var rel := ReplaceChar(cls[|AppPrefix|..], '\\', sep);
    var file := base + rel + ".php";
    assert file[..|base|] == base;
    assert file[|file| - 4..] == ".php";
    assert file[|base|..|file| - 4] == rel;
  }

  /** Two classes free of `sep` that map to the same file are the same class. */
  lemma AutoloadPathInjective(c1: string, c2: string, publicDir: string, sep: char)
    requires HasAppPrefix(c1) && HasAppPrefix(c2)
    requires sep !in c1 && sep !in c2
    requires AutoloadPath(c1, publicDir, sep) == AutoloadPath(c2, publicDir, sep)
    ensures c1 == c2
  {
    var base := BaseDir(publicDir, sep);
    var r1 := c1[|AppPrefix|..];
    var r2 := c2[|AppPrefix|..];
    var f := AutoloadPath(c1, publicDir, sep).value;
    assert f == base + ReplaceChar(r1, '\\', sep) + ".php";
    assert f == base + ReplaceChar(r2, '\\', sep) + ".php";
    assert ReplaceChar(r1, '\\', sep) == f[|base|..|f| - 4] == ReplaceChar(r2, '\\', sep);
    assert sep !in r1 by {
      forall i | 0 <= i < |r1| ensures r1[i] != sep { assert r1[i] == c1[|AppPrefix| + i]; }
    }
    assert sep !in r2 by {
      forall i | 0 <= i < |r2| ensures r2[i] != sep { assert r2[i] == c2[|AppPrefix| + i]; }
    }
    ReplaceCharRoundTrip(r1, '\\', sep);
    ReplaceCharRoundTrip(r2, '\\', sep);
    assert c1 == AppPrefix + r1 && c2 == AppPrefix + r2;
  }

  /** The worked example: App\Models\RecetaModel maps to Models/RecetaModel.php under the base directory. */
  lemma AutoloadRecetaModel(publicDir: string)
    ensures AutoloadPath("App\\Models\\RecetaModel", publicDir, '/')
              == Some(BaseDir(publicDir, '/') + "Models/RecetaModel.php")
    ensures AutoloadPath("Vendor\\Lib", publicDir, '/') == None
  {
    assert "Vendor\\Lib"[0] != AppPrefix[0];
    var rel := ReplaceChar("Models\\RecetaModel", '\\', '/');
    assert rel == "Models/RecetaModel";
    assert BaseDir(publicDir, '/') + rel + ".php" == BaseDir(publicDir, '/') + "Models/RecetaModel.php";
  }
}
