/** The texts of patch_build.py: the needles, and the two inserted blocks as the lines they are made of.
    Longer lines are spelled in pieces. */
module BuildTexts {
  import opened Text
  import opened PatchBuild

  const TINYGL_LOOP := "for f in src/" + "user/lib/" + "tinygl/*.c; do"
  const APPS_MARKER := "    # Single-" + "file apps under" + " src/user/apps/"
  const SOURCE_LOOP := "for s in $SRCS; do"
  const OLD_CALL := "            $UCC" + " $UCFLAGS" + " $inc_flags" + " $FLAGS \"$src\"" + " -o \"$obj\" \\"
  const OLD_CALL_TAIL := "                || {" + " echo \"[FOLDER]" + " build failed on" + " $src\"; return 1; }"
  const OBJECT_APPEND := "            OBJS" + "=\"$OBJS $obj\""
  const LINK_CALL := "        $LD" + " $ULDFLAGS -o" + " \"bin/userapp/" + "$NAME.elf\"" + " $OBJS \\"
  const LIBRARY_GLOB := "            bin/" + "obj/user/" + "lib/*.o \\"
  const LIBRARY_GLOB_LINE := LIBRARY_GLOB + "\n"

  /** A line of the given pieces. */
  function Line(pieces: seq<string>): string {
    Concat(pieces) + "\n"
  }

  /** The FreeType source list, first part. */
  function FreeTypeBaseSources(): seq<string> {
    ["    ", "local FT_", "SRCS=\"base/", "ftsystem.c", " base/", "ftinit.c", " base/", "ftdebug.c", " base/",
     "ftbase.c", " base/", "ftbbox.c"]
  }

  /** The FreeType source list, second part. */
  function FreeTypeFontSources(): seq<string> {
    [" base/", "ftglyph.c", " base/", "ftbdf.c", " base/", "ftbitmap.c", " truetype/", "truetype.c", " sfnt/",
     "sfnt.c"]
  }

  /** The FreeType source list, last part. */
  function FreeTypeRasterSources(): seq<string> {
    [" smooth/", "smooth.c", " raster/", "raster.c", " psnames/", "psnames.c", " psaux/", "psaux.c",
     " pshinter/", "pshinter.c\""]
  }

  /** Head of the FreeType loop. */
  function FreeTypeLoop(): seq<string> {
    ["    ", "for f in", " $FT_", "SRCS; do"]
  }

  /** The FreeType loop skips missing sources. */
  function FreeTypeTest(): seq<string> {
    ["        ", "if [ -f", " \"src/", "user/lib/", "freetype/", "src/$f\"", " ]; then"]
  }

  /** Base name of a FreeType source. */
  function FreeTypeBase(): seq<string> {
    ["            ", "local", " base=", "$(basename", " \"$f\" .c)"]
  }

  /** Progress line of the FreeType loop. */
  function FreeTypeEcho(): seq<string> {
    ["            ", "echo \"  ", "CC lib/", "freetype/", "src/$f ->", " bin/obj/", "user/lib/", "ft_",
     "$base.o\""]
  }

  /** Compile step of the FreeType loop, up to the source. */
  function FreeTypeCompileFlags(): seq<string> {
    ["            ", "$UCC", " $UCFLAGS", " -DFT2_", "BUILD_", "LIBRARY", " -Isrc/", "user/lib/", "freetype/",
     "include"]
  }

  /** Compile step of the FreeType loop, source and object. */
  function FreeTypeCompileFiles(): seq<string> {
    [" \"src/", "user/lib/", "freetype/", "src/$f\"", " -o \"bin/", "obj/user/", "lib/ft_", "$base.o\""]
  }

  /** Head of the ImGui loop. */
  function ImGuiLoop(): seq<string> {
    ["    ", "for f in", " src/", "user/lib/", "imgui/", "*.cpp", " src/", "user/lib/", "imgui/", "backends/",
     "*.cpp; do"]
  }

  /** The ImGui loop skips missing sources. */
  function ImGuiTest(): seq<string> {
    ["        ", "if [ -f", " \"$f\" ];", " then"]
  }

  /** Base name of an ImGui source. */
  function ImGuiBase(): seq<string> {
    ["            ", "local", " base=", "$(basename", " \"$f\"", " .cpp)"]
  }

  /** Progress line of the ImGui loop. */
  function ImGuiEcho(): seq<string> {
    ["            ", "echo \"  ", "CXX lib/", "imgui/", "$base.cpp", " -> bin/", "obj/user/", "lib/ig_",
     "$base.o\""]
  }

  /** Compile step of the ImGui loop, the flags. */
  function ImGuiCompileFlags(): seq<string> {
    ["            ", "g++", " $UCFLAGS", " -fno-", "exceptions", " -fno-rtti"]
  }

  /** Compile step of the ImGui loop, the rest. */
  function ImGuiCompileFiles(): seq<string> {
    [" -Isrc/", "user/lib/", "imgui", " -Isrc/", "user/lib/", "imgui/", "backends", " \"$f\" -o", " \"bin/",
     "obj/user/", "lib/ig_", "$base.o\""]
  }

  /** The new call depends on the source being C++. */
  function CppTest(): seq<string> {
    ["            ", "if [[", " \"$src\"", " == *.cpp", " ]]; then"]
  }

  /** Progress line of a C++ source. */
  function CppEcho(): seq<string> {
    ["                ", "echo \"  ", "CXX", " ${dir#src/", "user/", "apps/}/", "$s\""]
  }

  /** The new C++ compile call, the flags. */
  function CppCompileFlags(): seq<string> {
    ["                ", "g++", " $UCFLAGS", " -fno-", "exceptions", " -fno-rtti"]
  }

  /** What both new compile calls end their arguments with, up to the closing quote. */
  function CompileArguments(): seq<string> {
    [" $inc_", "flags", " $FLAGS", " \"$src\"", " -o \"$obj"]
  }

  /** The new C compile call, the flags. */
  function CCompileFlags(): seq<string> {
    ["                ", "$UCC", " $UCFLAGS"]
  }

  /** The failure report after a new compile call, up to its tag. */
  function FailureOpening(): seq<string> {
    [" { echo", " \"[FOLD"]
  }

  /** The failure report after its tag. */
  function FailureEnding(): seq<string> {
    ["] build", " failed", " on", " $src\";", " return", " 1; }"]
  }

  /** A new compile call with its failure report. */
  function GuardedCall(flags: seq<string>): string {
    Concat(flags + CompileArguments()) + "\" ||" + Concat(FailureOpening()) + "ER" + Concat(FailureEnding()) + "\n"
  }

  /** The FreeType and ImGui steps put before a marker line. */
  function LibraryBlock(): seq<string> {
    [Line([]),
     Line(["    # FreeType"]),
     Line(FreeTypeBaseSources() + FreeTypeFontSources() + FreeTypeRasterSources()),
     Line(FreeTypeLoop()),
     Line(FreeTypeTest()),
     Line(FreeTypeBase()),
     Line(FreeTypeEcho()),
     Line(FreeTypeCompileFlags() + FreeTypeCompileFiles()),
     Line(["        fi"]),
     Line(["    done"]),
     Line([]),
     Line(["    # ImGui"]),
     Line(ImGuiLoop()),
     Line(ImGuiTest()),
     Line(ImGuiBase()),
     Line(ImGuiEcho()),
     Line(ImGuiCompileFlags() + ImGuiCompileFiles()),
     Line(["        fi"]),
     Line(["    done"]),
     Line([])]
  }

  /** The steps an old compile call becomes. */
  function CompileBlock(): seq<string> {
    [Line([]),
     Line(CppTest()),
     Line(CppEcho()),
     GuardedCall(CppCompileFlags()),
     Line(["            else"]),
     GuardedCall(CCompileFlags()),
     Line(["            fi"])]
  }

  function Script(): Rules {
    Rules(TINYGL_LOOP, APPS_MARKER, SOURCE_LOOP, OLD_CALL, OLD_CALL_TAIL, OBJECT_APPEND, LINK_CALL, LIBRARY_GLOB,
          LibraryBlock(), CompileBlock(), LIBRARY_GLOB_LINE)
  }
}
