/** The reserved names of kernel/fs.c. */
module FsNames {
  import opened Bytes
  import opened FsTable

  predicate SystemManaged(name: seq<byte>) {
    || name == Text("hello.elf")
    || name == Text("fault-probe.elf")
    || name == Text("hang-probe.elf")
    || name == Text("rflags-probe.elf")
    || name == Text("stack-probe.elf")
    || name == Text("calculator.elf")
    || name == Text("notepad.elf")
    || name == Text("image-viewer.elf")
    || name == Text("ai-assistant.elf")
    || name == Text("browser.elf")
    || name == Text("system-apps.db")
  }

  predicate SystemLog(name: seq<byte>) {
    name == Text("system.log")
  }

  predicate SelfTestName(name: seq<byte>) {
    name == Text("__fs_self_test__") || name == Text("__fs_self_renamed__")
  }

  /** A file left behind by the boot-time self test. */
  predicate SelfTestArtifact(f: File) {
    SelfTestName(f.name) && f.data == [0x42, 0x00, 0x4D, 0xFF]
  }

  predicate Confirmation(text: seq<byte>) {
    text == Text("CONFIRM-LEGACY-SNAPSHOT")
  }
}
